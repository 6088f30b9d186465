/**
 The reader behind `inet_pton(AF_INET6, ...)`, written out from section 2.2 of RFC 4291: groups of one to
 four hexadecimal digits, at most one `::` standing for at least one zero group, and optionally a strict
 dotted quad in place of the last two groups.
 */
module Rfc4291 {
  import opened Wrappers
  import opened Numerals
  import opened Strings
  import opened ByteOrder
  import opened Ipv4

  type Segments = s: seq<u16> | |s| == 8 witness [0, 0, 0, 0, 0, 0, 0, 0]

  function Zeros(n: nat): (z: seq<u16>)
    ensures |z| == n && forall i :: 0 <= i < n ==> z[i] == 0
  {
    seq(n, _ => 0)
  }

  lemma GroupBound(p: string)
    requires 1 <= |p| <= 4 && AllDigits(Hex, p)
    ensures Value(Hex, p) < 0x1_0000
  {
    var p3 := p[..|p| - 1];
    assert |p3| > 0 ==> IsDigit(Hex, p3[|p3| - 1]);
    var p2 := if p3 == "" then p3 else p3[..|p3| - 1];
    assert |p2| > 0 ==> IsDigit(Hex, p2[|p2| - 1]);
    var p1 := if p2 == "" then p2 else p2[..|p2| - 1];
    assert |p1| > 0 ==> p1[..0] == "" && Value(Hex, p1) < 16;
    assert Value(Hex, p2) < 256 && Value(Hex, p3) < 4096;
  }

  function ReadGroup(p: string): Option<u16> {
    if 1 <= |p| <= 4 && AllDigits(Hex, p) then GroupBound(p); Some(Value(Hex, p)) else None
  }

  function ReadGroups(ps: seq<string>): (r: Option<seq<u16>>)
    ensures r.Some? <==> forall i :: 0 <= i < |ps| ==> ReadGroup(ps[i]).Some?
    ensures r.Some? ==> |r.value| == |ps|
  {
    if forall i :: 0 <= i < |ps| ==> ReadGroup(ps[i]).Some?
    then Some(seq(|ps|, i requires 0 <= i < |ps| => ReadGroup(ps[i]).value))
    else None
  }

  function QuadGroups(a: Ipv4Address): (gs: seq<u16>)
    ensures |gs| == 2
  {
    var o0: nat, o1: nat, o2: nat, o3: nat := a.octets[0], a.octets[1], a.octets[2], a.octets[3];
    [256 * o0 + o1, 256 * o2 + o3]
  }

  /** The groups on one side of `::`, or of a whole text without it; a quad may only end the text. */
  function ReadSide(s: string, quad: bool): Option<seq<u16>> {
    if s == "" then Some([])
    else
      var ps := Split(s, ':');
      var last := ps[|ps| - 1];
      if quad && '.' in last then
        match (ReadGroups(ps[..|ps| - 1]), StrictQuad(last))
        case (Some(gs), Some(a)) => Some(gs + QuadGroups(a))
        case _ => None
      else ReadGroups(ps)
  }

  predicate ColonPair(s: string, i: nat) {
    i + 1 < |s| && s[i] == ':' && s[i + 1] == ':'
  }

  function GapFrom(s: string, from: nat): (i: nat)
    requires from <= |s|
    ensures from <= i <= |s| && (i < |s| ==> ColonPair(s, i))
    ensures forall j :: from <= j < i ==> !ColonPair(s, j)
    decreases |s| - from
  {
    if from == |s| || ColonPair(s, from) then from else GapFrom(s, from + 1)
  }

  /** Where the first `::` begins, or the length when there is none. */
  function GapAt(s: string): (i: nat)
    ensures i <= |s| && (i < |s| ==> ColonPair(s, i))
    ensures forall j :: 0 <= j < i ==> !ColonPair(s, j)
  {
    GapFrom(s, 0)
  }

  function Left(s: string): string {
    s[..GapAt(s)]
  }

  function Right(s: string): string {
    if GapAt(s) < |s| then s[GapAt(s) + 2..] else ""
  }

  function InetPton(s: string): Option<Segments> {
    if GapAt(s) == |s| then
      match ReadSide(s, true)
      case Some(gs) => if |gs| == 8 then Some(gs) else None
      case None => None
    else
      match (ReadSide(Left(s), false), ReadSide(Right(s), true))
      case (Some(l), Some(r)) => if |l| + |r| <= 7 then Some(l + Zeros(8 - |l| - |r|) + r) else None
      case _ => None
  }

  /** `c_str()` hands the reader the text up to the first NUL. */
  function CStr(s: string): string {
    s[..IndexOf(s, '\0')]
  }

  // ---- Facts about the reader ----

  /** Neither side of a single colon in a text has a gap or ends in a colon there: then the whole has none. */
  lemma NoGapAcross(x: string, y: string)
    requires GapAt(x) == |x| && GapAt(y) == |y| && x != "" && y != "" && x[|x| - 1] != ':' && y[0] != ':'
    ensures var s := x + [':'] + y; GapAt(s) == |s|
  {
    var s := x + [':'] + y;
    forall j | 0 <= j < |s|
      ensures !ColonPair(s, j)
    {
      if j < |x| {
        assert !ColonPair(x, j);
      } else if j > |x| {
        assert !ColonPair(y, j - |x| - 1);
      }
    }
  }

  lemma NoColonNoGap(x: string)
    requires ':' !in x
    ensures GapAt(x) == |x|
  {}

  lemma {:induction false} JoinHasNoGap(ps: seq<string>)
    requires |ps| > 0 && forall i :: 0 <= i < |ps| ==> ps[i] != "" && ':' !in ps[i]
    ensures var s := Join(ps, ':');
            s != "" && GapAt(s) == |s| && s[0] != ':' && s[|s| - 1] != ':'
  {
    NoColonNoGap(ps[0]);
    if |ps| > 1 {
      JoinHasNoGap(ps[1..]);
      NoGapAcross(ps[0], Join(ps[1..], ':'));
    }
  }

  lemma GapAfter(x: string, y: string)
    requires GapAt(x) == |x| && (x == "" || x[|x| - 1] != ':')
    ensures GapAt(x + "::" + y) == |x| < |x + "::" + y|
    ensures Left(x + "::" + y) == x && Right(x + "::" + y) == y
  {
    var s := x + "::" + y;
    assert ColonPair(s, |x|);
    forall j | 0 <= j < |x|
      ensures !ColonPair(s, j)
    {
      assert !ColonPair(x, j);
    }
  }

  lemma SidesOf(s: string)
    requires GapAt(s) < |s|
    ensures s == Left(s) + "::" + Right(s)
  {
    CutAt(s, GapAt(s));
  }

  lemma CutAt(s: string, i: nat)
    requires i + 1 < |s| && s[i] == ':' && s[i + 1] == ':'
    ensures s == s[..i] + "::" + s[i + 2..]
  {}

  lemma DotIsNoGroup(p: string)
    requires '.' in p
    ensures ReadGroup(p) == None
  {
    var k :| 0 <= k < |p| && p[k] == '.';
    assert !IsDigit(Hex, p[k]);
  }

  /** The dots of a text are the dots of its pieces. */
  lemma DotInPieces(s: string)
    ensures var ps := Split(s, ':'); '.' in s <==> exists i :: 0 <= i < |ps| && '.' in ps[i]
  {
    JoinSplit(s, ':');
    JoinChars(Split(s, ':'), ':', '.');
  }

  /** In a side of groups only, every piece is a group and there is no dot. */
  lemma GroupPieces(s: string)
    requires ReadGroups(Split(s, ':')).Some?
    ensures '.' !in s
    ensures var ps, gs := Split(s, ':'), ReadGroups(Split(s, ':')).value;
            |gs| == |ps| && forall i :: 0 <= i < |ps| ==> ReadGroup(ps[i]) == Some(gs[i])
  {
    var ps := Split(s, ':');
    DotInPieces(s);
    if '.' in s {
      var i :| 0 <= i < |ps| && '.' in ps[i];
      DotIsNoGroup(ps[i]);
    }
  }

  /** In an accepted side every piece is a group, except a dotted last one. */
  lemma SidePieces(s: string, quad: bool)
    requires s != "" && ReadSide(s, quad).Some?
    ensures var ps, gs := Split(s, ':'), ReadSide(s, quad).value;
            if quad && '.' in s then
              && |gs| == |ps| + 1
              && (forall i :: 0 <= i < |ps| - 1 ==> ReadGroup(ps[i]) == Some(gs[i]))
              && StrictQuad(ps[|ps| - 1]).Some?
              && gs[|ps| - 1..] == QuadGroups(StrictQuad(ps[|ps| - 1]).value)
            else
              && '.' !in s
              && |gs| == |ps|
              && (forall i :: 0 <= i < |ps| ==> ReadGroup(ps[i]) == Some(gs[i]))
  {
    var ps := Split(s, ':');
    if quad && '.' in ps[|ps| - 1] {
      DotInPieces(s);
      QuadPieces(s);
    } else {
      GroupPieces(s);
    }
  }

  lemma QuadPieces(s: string)
    requires var ps := Split(s, ':'); s != "" && '.' in ps[|ps| - 1] && ReadSide(s, true).Some?
    ensures var ps, gs := Split(s, ':'), ReadSide(s, true).value;
            && |gs| == |ps| + 1
            && (forall i :: 0 <= i < |ps| - 1 ==> ReadGroup(ps[i]) == Some(gs[i]))
            && StrictQuad(ps[|ps| - 1]).Some?
            && gs[|ps| - 1..] == QuadGroups(StrictQuad(ps[|ps| - 1]).value)
  {
    var ps := Split(s, ':');
    var init := ps[..|ps| - 1];
    assert forall i :: 0 <= i < |init| ==> init[i] == ps[i];
    assert ReadSide(s, true).value == ReadGroups(init).value + QuadGroups(StrictQuad(ps[|ps| - 1]).value);
  }
}
