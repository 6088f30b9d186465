/** src/Ipv6Address.cpp: the binary form, the zero-run scan, the printer and the reader. */
module Ipv6 {
  import opened Wrappers
  import opened Numerals
  import opened Strings
  import opened ByteOrder
  import opened Ipv4
  import opened Rfc4291

  type Octets16 = s: seq<u8> | |s| == 16 witness seq(16, _ => 0)

  datatype Ipv6Address = Ipv6Address(octets: Octets16)

  datatype Ipv6ParseError = Unspecified

  // ---- Groups and octets ----

  function Segment(hi: nat, lo: nat): u16
    requires hi < 256 && lo < 256
  {
    256 * hi + lo
  }

  function SegmentsOf(a: Ipv6Address): Segments {
    seq(8, i requires 0 <= i < 8 => Segment(a.octets[2 * i], a.octets[2 * i + 1]))
  }

  function FromSegments(g: Segments): Ipv6Address {
    Ipv6Address(seq(16, k requires 0 <= k < 16 => if k % 2 == 0 then g[k / 2] / 256 else g[k / 2] % 256))
  }

  lemma SegmentsBijection(a: Ipv6Address, g: Segments)
    ensures FromSegments(SegmentsOf(a)) == a
    ensures SegmentsOf(FromSegments(g)) == g
  {
    var b := FromSegments(SegmentsOf(a));
    forall k | 0 <= k < 16
      ensures b.octets[k] == a.octets[k]
    {
      assert k == 2 * (k / 2) + k % 2;
    }
    assert b.octets == a.octets;
    var h := SegmentsOf(FromSegments(g));
    forall i | 0 <= i < 8
      ensures h[i] == g[i]
    {
      assert 2 * i / 2 == i && (2 * i + 1) / 2 == i;
    }
  }

  lemma LoadPair(lo: u8, hi: u8)
    ensures Load([lo, hi]) == Segment(hi, lo)
    ensures Bswap16(Segment(hi, lo)) == Segment(lo, hi)
  {
    TwoBytes(lo, hi);
    SwapValue(lo, hi);
  }

  /** The host-order integer that two octets make when copied over it. */
  function RawSegment(a: Ipv6Address, i: nat): u16
    requires i < 8
  {
    LoadPair(a.octets[2 * i], a.octets[2 * i + 1]);
    Load([a.octets[2 * i], a.octets[2 * i + 1]])
  }

  lemma SwapRaw(a: Ipv6Address, i: nat)
    requires i < 8
    ensures Bswap16(RawSegment(a, i)) == SegmentsOf(a)[i]
  {
    LoadPair(a.octets[2 * i], a.octets[2 * i + 1]);
  }

  /** `segments()`: copy the octets over an array of 16-bit integers, then swap each in place. */
  method SegmentsInPlace(a: Ipv6Address) returns (segments: array<u16>)
    ensures fresh(segments) && segments[..] == SegmentsOf(a)
  {
    segments := new u16[8](i requires 0 <= i < 8 => RawSegment(a, i));
    ghost var g := SegmentsOf(a);
    var i := 0;
    while i < 8
      invariant 0 <= i <= 8
      invariant forall k :: 0 <= k < i ==> segments[k] == g[k]
      invariant forall k :: i <= k < 8 ==> segments[k] == RawSegment(a, k)
    {
      SwapRaw(a, i);
      segments[i] := Bswap16(segments[i]);
      i := i + 1;
    }
    assert segments[..] == g;
  }

  lemma GroupImage(g: Segments, i: nat)
    requires i < 8
    ensures Store(2, Bswap16(g[i])) == [FromSegments(g).octets[2 * i], FromSegments(g).octets[2 * i + 1]]
  {
    Bswap16IsByteswap(g[i]);
    assert 2 * i / 2 == i && 2 * i % 2 == 0 && (2 * i + 1) / 2 == i && (2 * i + 1) % 2 == 1;
  }

  /** The eight-group constructor: swap every group, then copy the integers over the octets. */
  method FromGroups(g: Segments) returns (a: Ipv6Address)
    ensures a == FromSegments(g)
  {
    var octets := new u8[16](_ => 0);
    ghost var target := FromSegments(g).octets;
    var i := 0;
    while i < 8
      invariant 0 <= i <= 8
      invariant forall k :: 0 <= k < 2 * i ==> octets[k] == target[k]
    {
      GroupImage(g, i);
      var image := Store(2, Bswap16(g[i]));
      octets[2 * i], octets[2 * i + 1] := image[0], image[1];
      i := i + 1;
    }
    a := Ipv6Address(octets[..]);
    assert a.octets == target;
  }

  // ---- IPv4-mapped addresses ----

  predicate IsMapped(a: Ipv6Address) {
    (forall i :: 0 <= i < 10 ==> a.octets[i] == 0) && a.octets[10] == 0xff && a.octets[11] == 0xff
  }

  function Mapped(a: Ipv6Address): Option<Ipv4Address> {
    if IsMapped(a) then Some(Ipv4Address(a.octets[12..])) else None
  }

  function MappedFrom(v4: Ipv4Address): Ipv6Address {
    Ipv6Address([0, 0, 0, 0, 0, 0, 0, 0, 0, 0, 0xff, 0xff] + v4.octets)
  }

  method ToIpv4Mapped(a: Ipv6Address) returns (r: Option<Ipv4Address>)
    ensures r == Mapped(a)
  {
    var i := 0;
    while i < 10
      invariant i <= 10 && forall k :: 0 <= k < i ==> a.octets[k] == 0
    {
      if a.octets[i] != 0 {
        return None;
      }
      i := i + 1;
    }
    if a.octets[10] != 0xff || a.octets[11] != 0xff {
      return None;
    }
    assert a.octets[12..] == [a.octets[12], a.octets[13], a.octets[14], a.octets[15]];
    return Some(Ipv4Address([a.octets[12], a.octets[13], a.octets[14], a.octets[15]]));
  }

  method FromIpv4Mapped(v4: Ipv4Address) returns (a: Ipv6Address)
    ensures a == MappedFrom(v4)
  {
    var octets := new u8[16](_ => 0);
    octets[10] := 0xff;
    octets[11] := 0xff;
    octets[12] := v4.octets[0];
    octets[13] := v4.octets[1];
    octets[14] := v4.octets[2];
    octets[15] := v4.octets[3];
    assert octets[..] == MappedFrom(v4).octets;
    a := Ipv6Address(octets[..]);
  }

  /** The embedding of section 2.5.5.2 of RFC 4291: its image is what `toIpv4Mapped` recognises, and it inverts it there. */
  lemma MappedEmbedding(a: Ipv6Address, v4: Ipv4Address)
    ensures Mapped(a) == Some(v4) <==> a == MappedFrom(v4)
  {
    if a == MappedFrom(v4) {
      assert a.octets[12..] == v4.octets;
    }
    if Mapped(a) == Some(v4) {
      assert a.octets == MappedFrom(v4).octets;
    }
  }

  lemma ZeroGroup(a: Ipv6Address, i: nat)
    requires i < 8
    ensures SegmentsOf(a)[i] == 0 <==> a.octets[2 * i] == 0 && a.octets[2 * i + 1] == 0
  {}

  lemma ZeroOctet(a: Ipv6Address, k: nat)
    requires k < 16 && SegmentsOf(a)[k / 2] == 0
    ensures a.octets[k] == 0
  {
    ZeroGroup(a, k / 2);
    assert k == 2 * (k / 2) + k % 2;
  }

  lemma ZeroHead(a: Ipv6Address)
    ensures (forall i :: 0 <= i < 5 ==> SegmentsOf(a)[i] == 0) <==> (forall k :: 0 <= k < 10 ==> a.octets[k] == 0)
  {
    var g, o := SegmentsOf(a), a.octets;
    if k :| 0 <= k < 10 && o[k] != 0 {
      if g[k / 2] == 0 {
        ZeroOctet(a, k);
      }
    } else {
      forall i | 0 <= i < 5
        ensures g[i] == 0
      {
        ZeroGroup(a, i);
      }
    }
  }

  lemma MappedSegments(a: Ipv6Address)
    ensures var g := SegmentsOf(a);
            IsMapped(a) <==> (forall i :: 0 <= i < 5 ==> g[i] == 0) && g[5] == 0xffff
    ensures IsMapped(a) ==> SegmentsOf(a)[6..] == QuadGroups(Mapped(a).value)
  {
    ZeroHead(a);
    MarkAndQuad(a);
  }

  lemma MarkAndQuad(a: Ipv6Address)
    ensures SegmentsOf(a)[5] == 0xffff <==> a.octets[10] == 0xff && a.octets[11] == 0xff
    ensures SegmentsOf(a)[6..] == QuadGroups(Ipv4Address(a.octets[12..]))
  {}

  // ---- The longest zero run ----

  datatype Span = Span(start: nat, length: nat)

  predicate ZeroRun(gs: seq<u16>, sp: Span) {
    sp.start + sp.length <= |gs| && forall k :: sp.start <= k < sp.start + sp.length ==> gs[k] == 0
  }

  /** No zero run is longer, and none of the same length begins further left; no zeros is written (0, 0). */
  ghost predicate LeftmostLongest(gs: seq<u16>, sp: Span) {
    && ZeroRun(gs, sp)
    && (sp.length == 0 ==> sp.start == 0)
    && forall other: Span :: ZeroRun(gs, other) && other.length >= sp.length && other.length > 0 ==>
         other.length == sp.length && sp.start <= other.start
  }

  /** The length of the zero run that begins at `i`. */
  function RunAt(gs: seq<u16>, i: nat): (n: nat)
    requires i <= |gs|
    ensures ZeroRun(gs, Span(i, n))
    ensures i + n < |gs| ==> gs[i + n] != 0
    decreases |gs| - i
  {
    if i < |gs| && gs[i] == 0 then 1 + RunAt(gs, i + 1) else 0
  }

  /** The longest run among those that begin before `n`, the first of them on a tie. */
  function BestBefore(gs: seq<u16>, n: nat): Span
    requires n <= |gs|
  {
    if n == 0 then Span(0, 0)
    else
      var best, run := BestBefore(gs, n - 1), RunAt(gs, n - 1);
      if run > best.length then Span(n - 1, run) else best
  }

  function LongestRun(gs: seq<u16>): Span {
    BestBefore(gs, |gs|)
  }

  lemma {:induction false} BestBeforeWins(gs: seq<u16>, n: nat, other: Span)
    requires n <= |gs|
    ensures var best := BestBefore(gs, n);
            && ZeroRun(gs, best) && (best.length == 0 ==> best.start == 0)
            && (best.length > 0 ==> best.start < n)
            && (ZeroRun(gs, other) && other.length > 0 && other.start < n && other.length >= best.length ==>
                  other.length == best.length && best.start <= other.start)
  {
    if n > 0 {
      BestBeforeWins(gs, n - 1, other);
      if ZeroRun(gs, other) && other.start == n - 1 {
        assert other.length <= RunAt(gs, n - 1);
      }
    }
  }

  lemma LongestRunMeaning(gs: seq<u16>)
    ensures LeftmostLongest(gs, LongestRun(gs))
  {
    var best := LongestRun(gs);
    BestBeforeWins(gs, |gs|, best);
    forall other: Span | ZeroRun(gs, other) && other.length >= best.length && other.length > 0
      ensures other.length == best.length && best.start <= other.start
    {
      BestBeforeWins(gs, |gs|, other);
    }
  }

  lemma LeftmostLongestUnique(gs: seq<u16>, x: Span, y: Span)
    requires LeftmostLongest(gs, x) && LeftmostLongest(gs, y)
    ensures x == y
  {
    if x.length >= y.length && x.length > 0 {
      assert ZeroRun(gs, x);
    }
    if y.length >= x.length && y.length > 0 {
      assert ZeroRun(gs, y);
    }
  }

  /** The one-pass scan of `toString`, for arrays of any length. */
  method ScanZeroRun(segments: array<u16>) returns (longest: Span)
    ensures longest == LongestRun(segments[..])
  {
    longest := Span(0, 0);
    var current := Span(0, 0);
    var i := 0;
    while i < segments.Length
      invariant 0 <= i <= segments.Length
      invariant current.length == 0 ==> i == 0 || segments[i - 1] != 0
      invariant current.length > 0 ==> current.start + current.length == i && ZeroRun(segments[..i], current)
      invariant current.length > 0 && current.start > 0 ==> segments[current.start - 1] != 0
      invariant current.length <= longest.length
      invariant LeftmostLongest(segments[..i], longest)
    {
      ghost var before, after, was := segments[..i], segments[..i + 1], longest;
      assert after == before + [segments[i]];
      if segments[i] == 0 {
        if current.length == 0 {
          current := current.(start := i);
        }
        current := current.(length := current.length + 1);
        if current.length > longest.length {
          longest := current;
        }
      } else {
        current := Span(0, 0);
      }
      ScanStep(before, segments[i], was, current, longest);
      i := i + 1;
    }
    assert segments[..i] == segments[..];
    LongestRunMeaning(segments[..]);
    LeftmostLongestUnique(segments[..], longest, LongestRun(segments[..]));
  }

  /** One more segment: the runs it adds all end at it, and `current` is the longest of those. */
  lemma ScanStep(before: seq<u16>, segment: u16, was: Span, current: Span, now: Span)
    requires LeftmostLongest(before, was)
    requires segment != 0 ==> current.length == 0
    requires segment == 0 ==> current.length > 0 && current.start + current.length == |before| + 1
    requires segment == 0 ==> ZeroRun(before + [segment], current)
    requires segment == 0 && current.start > 0 ==> before[current.start - 1] != 0
    requires now == if current.length > was.length then current else was
    requires current.length <= was.length + 1
    ensures LeftmostLongest(before + [segment], now)
  {
    var after := before + [segment];
    assert ZeroRun(after, now);
    assert segment == 0 && current.start > 0 ==> after[current.start - 1] != 0;
    forall other: Span | ZeroRun(after, other) && other.length >= now.length && other.length > 0
      ensures other.length == now.length && now.start <= other.start
    {
      var end := other.start + other.length;
      if end <= |before| {
        assert forall k :: other.start <= k < end ==> before[k] == after[k];
        assert ZeroRun(before, other);
      } else {
        assert after[end - 1] == segment;
      }
    }
  }

  // ---- The printer ----

  function HexPieces(gs: seq<u16>): (ps: seq<string>)
    ensures |ps| == |gs| && forall i :: 0 <= i < |gs| ==> ps[i] == Numeral(Hex, gs[i])
  {
    seq(|gs|, i requires 0 <= i < |gs| => Numeral(Hex, gs[i]))
  }

  function GroupsText(gs: seq<u16>): string {
    if gs == [] then "" else Join(HexPieces(gs), ':')
  }

  lemma GroupsTextAppend(out: string, gs: seq<u16>, g: u16)
    ensures out + GroupsText(gs + [g]) ==
            (if gs == [] then out + GroupsText(gs) else out + GroupsText(gs) + ":") + Numeral(Hex, g)
  {
    var ps, p := HexPieces(gs), Numeral(Hex, g);
    assert HexPieces(gs + [g]) == ps + [p];
    if gs != [] {
      JoinAppend(ps, p, ':');
      Regroup(out, Join(ps, ':') + [':'], p);
      Regroup(out, Join(ps, ':'), [':']);
    } else {
      assert out + "" == out;
    }
  }

  /** The groups with one run of them left out. */
  function GappedText(gs: seq<u16>, sp: Span): string
    requires sp.start + sp.length <= |gs|
  {
    GroupsText(gs[..sp.start]) + "::" + GroupsText(gs[sp.start + sp.length..])
  }

  function HexText(g: Segments): string {
    LongestRunMeaning(g);
    if LongestRun(g).length > 1 then GappedText(g, LongestRun(g)) else GroupsText(g)
  }

  function Text(a: Ipv6Address): string {
    if IsMapped(a) then "::ffff:" + Ipv4.Text(Mapped(a).value) else HexText(SegmentsOf(a))
  }

  lemma SliceAppend(g: seq<u16>, start: nat, i: nat)
    requires start <= i < |g|
    ensures g[start..i] + [g[i]] == g[start..i + 1]
  {}

  /** `writeSubslice`: append `count` groups with colons between them. */
  method WriteSubslice(out: string, segments: seq<u16>, start: nat, count: nat) returns (r: string)
    requires start + count <= |segments|
    ensures r == out + GroupsText(segments[start..start + count])
  {
    r := out;
    if count == 0 {
      return;
    }
    var i := start;
    ghost var written: seq<u16> := [];
    while i < start + count
      invariant start <= i <= start + count
      invariant written == segments[start..i]
      invariant r == out + GroupsText(written)
    {
      GroupsTextAppend(out, written, segments[i]);
      SliceAppend(segments, start, i);
      if i > start {
        r := r + ":";
      }
      r := r + Numeral(Hex, segments[i]);
      written := written + [segments[i]];
      i := i + 1;
    }
  }

  /** The two paths of the printer behind the scan. */
  method WriteGroups(g: Segments, longest: Span) returns (out: string)
    requires longest == LongestRun(g)
    ensures out == HexText(g)
  {
    LongestRunMeaning(g);
    out := "";
    if longest.length > 1 {
      out := WriteSubslice(out, g, 0, longest.start);
      ghost var before := out;
      out := out + "::";
      out := WriteSubslice(out, g, longest.start + longest.length, |g| - (longest.start + longest.length));
      CompressedPath(g, longest, before, out);
    } else {
      out := WriteSubslice(out, g, 0, |g|);
      PlainPath(g, out);
    }
  }

  method ToString(a: Ipv6Address) returns (out: string)
    ensures out == Text(a)
  {
    var mappedV4 := ToIpv4Mapped(a);
    if mappedV4.Some? {
      var quad := Ipv4.ToString(mappedV4.value);
      return "::ffff:" + quad;
    }
    var segments := SegmentsInPlace(a);
    var longest := ScanZeroRun(segments);
    out := WriteGroups(segments[..], longest);
  }

  /** What the compressing path of the printer has written at the end, and the plain one. */
  lemma CompressedPath(g: Segments, run: Span, before: string, out: string)
    requires run.start + run.length <= 8
    requires var end := run.start + run.length;
             && before == "" + GroupsText(g[0..0 + run.start])
             && out == before + "::" + GroupsText(g[end..end + (|g| - end)])
    ensures out == GappedText(g, run)
  {
    WholeSlices(g, run.start, run.start + run.length);
    EmptyFirst(GroupsText(g[..run.start]));
  }

  lemma PlainPath(g: Segments, out: string)
    requires out == "" + GroupsText(g[0..0 + |g|])
    ensures out == GroupsText(g)
  {
    WholeSlices(g, 0, 0);
    EmptyFirst(GroupsText(g));
  }

  lemma EmptyFirst(x: string)
    ensures "" + x == x
  {}

  lemma WholeSlices(g: seq<u16>, i: nat, j: nat)
    requires i <= |g| && j <= |g|
    ensures g[0..i] == g[..i] && g[j..j + (|g| - j)] == g[j..] && g[0..|g|] == g
  {}

  // ---- The reader ----

  function Read(s: string): Result<Ipv6Address, Ipv6ParseError> {
    match InetPton(CStr(s))
    case Some(g) => Ok(FromSegments(g))
    case None => Err(Unspecified)
  }
}
