/** src/IpAddress.cpp: an address of either family, and how its text is told apart. */
module Ip {
  import opened Wrappers
  import opened Numerals
  import opened Strings
  import ByteOrder
  import Ipv4
  import opened Rfc4291
  import Ipv6
  import Ipv6Text
  import Rfc5952

  datatype IpAddress = V4(v4: Ipv4.Ipv4Address) | V6(v6: Ipv6.Ipv6Address)

  function ToString(ip: IpAddress): string {
    match ip
    case V4(a) => Ipv4.Text(a)
    case V6(a) => Ipv6.Text(a)
  }

  function Parse(s: string): Result<IpAddress, ()> {
    if |s| < 7 || |s| > 15 then
      match Ipv6.Read(s)
      case Ok(a) => Ok(V6(a))
      case Err(_) => Err(())
    else
      match Ipv4.Read(s)
      case Ok(a) => Ok(V4(a))
      case Err(_) =>
        match Ipv6.Read(s)
        case Ok(a) => Ok(V6(a))
        case Err(_) => Err(())
  }

  /** On every text: what is accepted is what one of the readers accepts, and nothing else is. */
  lemma ParseMeaning(s: string)
    ensures forall a :: Parse(s) == Ok(V4(a)) <==> Ipv4.Read(s) == Ok(a) && 7 <= |s| <= 15
    ensures forall a :: Parse(s) == Ok(V6(a)) <==> Ipv6.Read(s) == Ok(a) && (Ipv4.Read(s).Err? || !(7 <= |s| <= 15))
    ensures Parse(s).Err? <==> Ipv6.Read(s).Err? && (Ipv4.Read(s).Err? || |s| > 15)
  {
    if Ipv4.Read(s).Ok? {
      ParseV4Text(s);
    }
  }

  /** The text of an address is the one strict dotted quad, or the one canonical spelling, of it. */
  lemma ToStringMeaning(ip: IpAddress)
    ensures match ip
            case V4(a) => Ipv4.StrictQuad(ToString(ip)) == Some(a)
            case V6(a) => Rfc5952.Canonical(ToString(ip)) && InetPton(ToString(ip)) == Some(Ipv6.SegmentsOf(a))
  {
    match ip
    case V4(a) => Ipv4.StrictQuadIsText(Ipv4.Text(a), a);
    case V6(a) =>
      Ipv6Text.TextReads(a);
      Ipv6.SegmentsBijection(a, Ipv6.SegmentsOf(a));
      Rfc5952.CanonicalIsPrinted(Ipv6.Text(a));
  }

  // ---- The shape of accepted IPv6 texts ----

  predicate AddressChar(c: char) {
    c == '.' || Ipv6Text.GroupChar(c)
  }

  lemma QuadChar(p: string, c: char)
    requires Ipv4.StrictQuad(p).Some? && c in p
    ensures AddressChar(c)
  {
    var a := Ipv4.StrictQuad(p).value;
    Ipv4.StrictQuadIsText(p, a);
    Ipv4.TextShape(a);
  }

  lemma PieceChar(p: string, c: char)
    requires (ReadGroup(p).Some? || Ipv4.StrictQuad(p).Some?) && c in p
    ensures AddressChar(c)
  {
    if ReadGroup(p).Some? {
      var k :| 0 <= k < |p| && p[k] == c;
      assert IsDigit(Hex, p[k]);
    } else {
      QuadChar(p, c);
    }
  }

  lemma PieceWith(s: string, c: char) returns (i: nat)
    requires c in s && c != ':'
    ensures i < |Split(s, ':')| && c in Split(s, ':')[i]
  {
    JoinSplit(s, ':');
    JoinChars(Split(s, ':'), ':', c);
    i :| 0 <= i < |Split(s, ':')| && c in Split(s, ':')[i];
  }

  lemma SideChar(s: string, quad: bool, c: char)
    requires ReadSide(s, quad).Some? && c in s && c != ':'
    ensures AddressChar(c)
  {
    var i := PieceWith(s, c);
    SidePieces(s, quad);
    PieceChar(Split(s, ':')[i], c);
  }

  lemma AcceptedChar(s: string, c: char)
    requires InetPton(s).Some? && c in s
    ensures AddressChar(c)
  {
    if c == ':' {
    } else if GapAt(s) == |s| {
      SideChar(s, true, c);
    } else {
      SidesOf(s);
      assert c in Left(s) || c in Right(s);
      if c in Left(s) {
        SideChar(Left(s), false, c);
      } else {
        SideChar(Right(s), true, c);
      }
    }
  }

  /** Accepted texts hold hexadecimal digits, colons and dots only; in particular no NUL, so nothing is cut off. */
  lemma AcceptedChars(s: string)
    requires InetPton(s).Some?
    ensures forall c :: c in s ==> AddressChar(c)
    ensures CStr(s) == s
  {
    forall c | c in s
      ensures AddressChar(c)
    {
      AcceptedChar(s, c);
    }
    assert !AddressChar('\0');
    Ipv6Text.NoNulIsWhole(s);
  }

  /** The text up to the first NUL is read if and only if it spells the address. */
  lemma V6Meaning(s: string, junk: string, a: Ipv6.Ipv6Address)
    requires '\0' !in s
    ensures Ipv6.Read(s) == Ok(a) <==> InetPton(s) == Some(Ipv6.SegmentsOf(a))
    ensures Ipv6.Read(s + ['\0'] + junk) == Ipv6.Read(s)
  {
    Ipv6Text.NoNulIsWhole(s);
    V6ReadsPlainText(s, junk);
    if InetPton(s).Some? {
      Ipv6.SegmentsBijection(a, InetPton(s).value);
    }
  }

  /** Brackets are no part of an IPv6 address text, and a NUL ends it: what follows is not looked at. */
  lemma V6ReadsPlainText(s: string, junk: string)
    ensures '[' in CStr(s) ==> Ipv6.Read(s).Err?
    ensures '\0' !in s ==> Ipv6.Read(s + ['\0'] + junk) == Ipv6.Read(s)
  {
    if InetPton(CStr(s)).Some? {
      AcceptedChars(CStr(s));
      assert !Ipv6Text.GroupChar('[');
    }
    if '\0' !in s {
      IndexAround(s, '\0', junk);
      Ipv6Text.NoNulIsWhole(s);
    }
  }

  /** A dotted side is dotless up to its last colon, and the rest is a printed quad. */
  lemma DottedSide(s: string) returns (pre: string, a: Ipv4.Ipv4Address)
    requires ReadSide(s, true).Some? && '.' in s
    ensures s == pre + Ipv4.Text(a) && '.' !in pre
  {
    SidePieces(s, true);
    var ps := Split(s, ':');
    var last, init := ps[|ps| - 1], ps[..|ps| - 1];
    a := Ipv4.StrictQuad(last).value;
    Ipv4.StrictQuadIsText(last, a);
    JoinSplit(s, ':');
    pre := BeforeLast(ps);
    if |ps| > 1 {
      assert forall i :: 0 <= i < |init| ==> init[i] == ps[i];
      DotlessJoin(init);
    }
  }

  lemma BeforeLast(ps: seq<string>) returns (pre: string)
    requires |ps| > 0
    ensures Join(ps, ':') == pre + ps[|ps| - 1]
    ensures pre == if |ps| == 1 then "" else Join(ps[..|ps| - 1], ':') + [':']
  {
    pre := "";
    if |ps| > 1 {
      var init := ps[..|ps| - 1];
      assert ps == init + [ps[|ps| - 1]];
      JoinAppend(init, ps[|ps| - 1], ':');
      pre := Join(init, ':') + [':'];
    }
  }

  lemma DotlessJoin(ps: seq<string>)
    requires |ps| > 0 && forall i :: 0 <= i < |ps| ==> ReadGroup(ps[i]).Some?
    ensures '.' !in Join(ps, ':') + [':']
  {
    JoinChars(ps, ':', '.');
    if '.' in Join(ps, ':') {
      var i :| 0 <= i < |ps| && '.' in ps[i];
      DotIsNoGroup(ps[i]);
    }
  }

  lemma DottedSpelling(s: string) returns (pre: string, a: Ipv4.Ipv4Address)
    requires InetPton(s).Some? && '.' in s
    ensures s == pre + Ipv4.Text(a) && '.' !in pre
  {
    if GapAt(s) == |s| {
      pre, a := DottedSide(s);
    } else {
      Rfc5952.DotsOnTheRight(s);
      SidesOf(s);
      var rest;
      rest, a := DottedSide(Right(s));
      pre := Left(s) + "::" + rest;
      Regroup(Left(s) + "::", rest, Ipv4.Text(a));
    }
  }

  lemma QuadHead(a: Ipv4.Ipv4Address)
    ensures var qs := Ipv4.Pieces(a);
            var rest := Join(qs[1..], '.');
            && Ipv4.Text(a) == qs[0] + ['.'] + rest && '.' !in qs[0]
            && Split(rest, '.') == qs[1..]
  {
    var qs := Ipv4.Pieces(a);
    Ipv4.TextShape(a);
    SplitPieces(Ipv4.Text(a), '.');
    SplitJoin(qs[1..], '.');
  }

  lemma PrefixedQuadPieces(pre: string, a: Ipv4.Ipv4Address)
    requires '.' !in pre
    ensures var ps, qs := Split(pre + Ipv4.Text(a), '.'), Ipv4.Pieces(a);
            ps == [pre + qs[0]] + qs[1..]
  {
    var qs := Ipv4.Pieces(a);
    var rest := Join(qs[1..], '.');
    QuadHead(a);
    Regroup(pre, qs[0], ['.'] + rest);
    Regroup(qs[0], ['.'], rest);
    Regroup(pre + qs[0], ['.'], rest);
    SplitStep(pre + qs[0], '.', rest);
  }

  /** A quad with dotless text before it, as the IPv4 reader sees it. */
  lemma PrefixedQuadRead(pre: string, a: Ipv4.Ipv4Address)
    requires '.' !in pre
    ensures var s := pre + Ipv4.Text(a);
            && (Ipv4.Read(s).Ok? <==> Ipv4.Octet(s).Some?)
            && (Ipv4.Read(s).Ok? ==>
                  Ipv4.Read(s).value == Ipv4.Ipv4Address([Ipv4.Octet(s).value] + a.octets[1..]))
  {
    var s := pre + Ipv4.Text(a);
    var ps := Split(s, '.');
    PrefixedQuadPieces(pre, a);
    Ipv4.OctetOfFirstPiece(s);
    Ipv4.ReadCases(s);
    forall j | 1 <= j < 4
      ensures Ipv4.Octet(ps[j]) == Some(a.octets[j])
    {
      assert ps[j] == Ipv4.Pieces(a)[j];
      Ipv4.OctetOfNumeral(a.octets[j]);
    }
    if Ipv4.Read(s).Ok? {
      assert Ipv4.Read(s).value.octets == [Ipv4.Octet(s).value] + a.octets[1..];
    }
  }

  /**
   The IPv4 reader also takes an IPv6 spelling, and wrongly so, exactly when it ends in a dotted quad
   and begins with a decimal octet.
   */
  lemma V4TakesSpelling(s: string)
    requires InetPton(s).Some?
    ensures Ipv4.Read(s).Ok? <==> '.' in s && Ipv4.Octet(s).Some?
    ensures '.' in s ==> |s| >= 7
  {
    if '.' in s {
      var pre, a := DottedSpelling(s);
      Ipv4.TextShape(a);
      PrefixedQuadRead(pre, a);
    } else {
      Ipv4.ReadCases(s);
      SplitStep(s, '.', "");
    }
  }

  lemma NoLeadingDigit(s: string)
    requires s == "" || !IsDigit(Decimal, s[0])
    ensures Ipv4.Octet(s) == None
  {}

  // ---- Main results ----

  /** The v4 trial fails on every text the IPv6 printer writes. */
  lemma V4RejectsPrintedV6(a: Ipv6.Ipv6Address)
    ensures Ipv4.Read(Ipv6.Text(a)).Err?
  {
    Ipv6Text.TextReads(a);
    Ipv6Text.TextChars(a);
    V4TakesSpelling(Ipv6.Text(a));
    if Ipv6.IsMapped(a) {
      assert Ipv6.Text(a)[0] == ':' && !IsDigit(Decimal, ':');
      NoLeadingDigit(Ipv6.Text(a));
    }
  }

  /** Parsing undoes printing, and keeps the family. */
  lemma ParseToString(ip: IpAddress)
    ensures Parse(ToString(ip)) == Ok(ip)
  {
    match ip
    case V4(a) =>
      Ipv4.ReadText(a);
      Ipv4.TextShape(a);
    case V6(a) =>
      Ipv6Text.TextReads(a);
      V4RejectsPrintedV6(a);
  }

  /**
   Which RFC 4291 spellings are parsed as the IPv6 address they spell: all but those of at most 15
   characters that end in a dotted quad and begin with a decimal octet, such as `1::1.2.3.4`.
   */
  lemma ParseSpelling(s: string)
    requires InetPton(s).Some?
    ensures Parse(s) == Ok(V6(Ipv6.FromSegments(InetPton(s).value)))
            <==> !('.' in s && |s| <= 15 && Ipv4.Octet(s).Some?)
  {
    AcceptedChars(s);
    V4TakesSpelling(s);
  }

  /** Such a text exists: the IPv4 parser reads it, and here it is no address at all. */
  lemma GateHides()
    ensures Ipv4.Read("1.2.3.4xxxxxxxxx") == Ok(Ipv4.Ipv4Address([1, 2, 3, 4]))
    ensures Parse("1.2.3.4xxxxxxxxx") == Err(())
  {
    Ipv4.OneTwoThreeFour("", "", "", "xxxxxxxxx");
    LongLiteral();
    Rejected("1.2.3.4xxxxxxxxx", 7);
  }

  lemma Rejected(s: string, k: nat)
    requires k < |s| && |s| > 15 && '\0' !in s && !AddressChar(s[k])
    ensures Parse(s) == Err(())
  {
    NotV6(s, k);
  }

  lemma LongLiteral()
    ensures "1" + "" + "." + ("2" + "" + "." + ("3" + "" + "." + ("4" + "xxxxxxxxx"))) == "1.2.3.4xxxxxxxxx"
    ensures |"1.2.3.4xxxxxxxxx"| == 16 && '\0' !in "1.2.3.4xxxxxxxxx" && !AddressChar("1.2.3.4xxxxxxxxx"[7])
  {
    assert "4" + "xxxxxxxxx" == "4xxxxxxxxx" && "3" + "" + "." == "3." && "2" + "" + "." == "2." && "1" + "" + "." == "1.";
    assert "3." + "4xxxxxxxxx" == "3.4xxxxxxxxx";
    assert "2." + "3.4xxxxxxxxx" == "2.3.4xxxxxxxxx";
  }

  /** A character that no address text holds, and no NUL before it. */
  lemma NotV6(s: string, k: nat)
    requires k < |s| && '\0' !in s && !AddressChar(s[k])
    ensures Ipv6.Read(s).Err?
  {
    Ipv6Text.NoNulIsWhole(s);
    if InetPton(s).Some? {
      AcceptedChar(s, s[k]);
    }
  }

  /** Which texts the IPv4 parser accepts keep that reading here: those of at most 15 characters. */
  lemma ParseV4Text(s: string)
    requires Ipv4.Read(s).Ok?
    ensures Parse(s) == Ok(V4(Ipv4.Read(s).value)) <==> |s| <= 15
  {
    Ipv4.ReadCases(s);
    var ps := Split(s, '.');
    forall j | 0 <= j < 4
      ensures ps[j] != ""
    {
      assert Ipv4.Octet(ps[j]).Some?;
    }
    JoinSplit(s, '.');
    JoinAtLeast(ps);
  }

  lemma {:induction false} JoinAtLeast(ps: seq<string>)
    requires |ps| > 0 && forall j :: 0 <= j < |ps| ==> ps[j] != ""
    ensures |Join(ps, '.')| >= 2 * |ps| - 1
  {
    if |ps| > 1 {
      JoinAtLeast(ps[1..]);
    }
  }

  /** To the IPv4 reader `1::` and any quad is the address 1.b.c.d. */
  lemma SpellingTakenForV4(q: Ipv4.Ipv4Address)
    ensures var s := "1" + "::" + Ipv4.Text(q);
            && InetPton(s) == Some([1, 0, 0, 0, 0, 0] + QuadGroups(q))
            && Ipv4.Read(s) == Ok(Ipv4.Ipv4Address([1] + q.octets[1..]))
  {
    OneThenQuad(q);
    var pre := "1" + "::";
    assert '.' !in pre;
    TakenForV4(pre, q, 1);
  }

  lemma TakenForV4(pre: string, q: Ipv4.Ipv4Address, first: ByteOrder.u8)
    requires '.' !in pre && Ipv4.Octet(pre + Ipv4.Text(q)) == Some(first)
    ensures Ipv4.Read(pre + Ipv4.Text(q)) == Ok(Ipv4.Ipv4Address([first] + q.octets[1..]))
  {
    PrefixedQuadRead(pre, q);
  }

  /** The misread family: `1::` and any quad of at most 12 characters gives the IPv4 address 1.b.c.d. */
  lemma ParseMisreads(q: Ipv4.Ipv4Address)
    requires |Ipv4.Text(q)| <= 12
    ensures var s := "1" + "::" + Ipv4.Text(q);
            && InetPton(s) == Some([1, 0, 0, 0, 0, 0] + QuadGroups(q))
            && Parse(s) == Ok(V4(Ipv4.Ipv4Address([1] + q.octets[1..])))
  {
    SpellingTakenForV4(q);
    Ipv4.TextShape(q);
  }

  lemma OneThenQuad(q: Ipv4.Ipv4Address)
    ensures var s := "1" + "::" + Ipv4.Text(q);
            && InetPton(s) == Some([1, 0, 0, 0, 0, 0] + QuadGroups(q))
            && '.' in s && Ipv4.Octet(s) == Some(1)
  {
    var quad, l, r := Ipv4.Text(q), [1], QuadGroups(q);
    OneSide();
    QuadSide(q);
    NoColonNoGap("1");
    assert [1, 0, 0, 0, 0, 0] + r == l + Zeros(5) + r;
    Ipv6Text.ReadGapped("1", quad, l, r, [1, 0, 0, 0, 0, 0] + r);
    Ipv6Text.QuadHasDot(q);
    assert !IsDigit(Decimal, ("::" + quad)[0]);
    FromCharsNumeral(1, "::" + quad, 255);
    Regroup("1", "::", quad);
  }

  lemma OneSide()
    ensures ReadSide("1", false) == Some([1]) && Numeral(Decimal, 1) == "1"
  {
    assert Numeral(Hex, 1) == "1";
    assert Ipv6.HexPieces([1]) == ["1"];
    Ipv6Text.SideOfGroups([1], false);
  }

  lemma QuadSide(q: Ipv4.Ipv4Address)
    ensures ReadSide(Ipv4.Text(q), true) == Some(QuadGroups(q))
  {
    var quad := Ipv4.Text(q);
    Ipv4.TextShape(q);
    SplitStep(quad, ':', "");
    Ipv6Text.QuadHasDot(q);
    Ipv4.StrictQuadIsText(quad, q);
    var ps := Split(quad, ':');
    assert ps == [quad] && ps[..0] == [];
    var none := ReadGroups(ps[..0]);
    assert none == Some([]);
    assert none.value + QuadGroups(q) == QuadGroups(q);
  }
}
