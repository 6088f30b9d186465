/** src/Ipv4Address.cpp and include/qsox/Ipv4Address.hpp. */
module Ipv4 {
  import opened Wrappers
  import opened Numerals
  import opened Strings
  import opened ByteOrder

  type Octets = s: seq<u8> | |s| == 4 witness [0, 0, 0, 0]

  datatype Ipv4Address = Ipv4Address(octets: Octets)

  datatype Ipv4ParseError = MissingOctets | TrailingData | InvalidOctet

  // ---- Bits, byte order and ordering ----

  function FromBits(bits: u32): Ipv4Address {
    Ipv4Address([bits / 0x100_0000 % 256, bits / 0x1_0000 % 256, bits / 0x100 % 256, bits % 256])
  }

  function ToBits(a: Ipv4Address): u32 {
    var o0: nat, o1: nat, o2: nat, o3: nat := a.octets[0], a.octets[1], a.octets[2], a.octets[3];
    o0 * 0x100_0000 + o1 * 0x1_0000 + o2 * 0x100 + o3
  }

  function ToInAddr(a: Ipv4Address): u32 {
    Byteswap(4, ToBits(a))
  }

  function FromInAddr(sAddr: u32): Ipv4Address {
    FromBits(Byteswap(4, sAddr))
  }

  lemma PackedQuotients(o0: nat, o1: nat, o2: nat, o3: nat)
    requires o0 < 256 && o1 < 256 && o2 < 256 && o3 < 256
    ensures var n := o0 * 0x100_0000 + o1 * 0x1_0000 + o2 * 0x100 + o3;
            && n % 256 == o3
            && n / 0x100 == o0 * 0x1_0000 + o1 * 0x100 + o2
            && n / 0x1_0000 == o0 * 0x100 + o1
            && n / 0x100_0000 == o0
  {}

  lemma BitsAreABijection(a: Ipv4Address, bits: u32)
    ensures FromBits(ToBits(a)) == a
    ensures ToBits(FromBits(bits)) == bits
  {
    FromBitsOf(a);
    var q1: nat := bits / 256;
    var q2: nat := q1 / 256;
    var q3: nat := q2 / 256;
    PackedQuotients(q3, q2 % 256, q1 % 256, bits % 256);
    assert bits == q3 * 0x100_0000 + q2 % 256 * 0x1_0000 + q1 % 256 * 0x100 + bits % 256;
  }

  lemma Unpacked(o0: nat, o1: nat, o2: nat, o3: nat)
    requires o0 < 256 && o1 < 256 && o2 < 256 && o3 < 256
    ensures var n := o0 * 0x100_0000 + o1 * 0x1_0000 + o2 * 0x100 + o3;
            n / 0x100_0000 % 256 == o0 && n / 0x1_0000 % 256 == o1 && n / 0x100 % 256 == o2 && n % 256 == o3
  {
    PackedQuotients(o0, o1, o2, o3);
    assert (o0 * 0x1_0000 + o1 * 0x100 + o2) % 256 == o2;
    assert (o0 * 0x100 + o1) % 256 == o1;
  }

  lemma FromBitsOf(a: Ipv4Address)
    ensures FromBits(ToBits(a)) == a
  {
    var o0: nat, o1: nat, o2: nat, o3: nat := a.octets[0], a.octets[1], a.octets[2], a.octets[3];
    Unpacked(o0, o1, o2, o3);
    assert FromBits(ToBits(a)).octets == [o0, o1, o2, o3];
    assert a.octets == [o0, o1, o2, o3];
  }

  /** The `s_addr` field holds the four octets in memory order, that is in network order; the conversion is a bijection. */
  lemma InAddrIsNetworkOrder(a: Ipv4Address)
    ensures Store(4, ToInAddr(a)) == a.octets
    ensures FromInAddr(ToInAddr(a)) == a
    ensures forall x: u32 :: FromInAddr(x) == a ==> x == ToInAddr(a)
  {
    var o, v := a.octets, ToBits(a);
    BitsAreABijection(a, 0);
    StoreBits(a);
    ReverseTwice(o);
    StoreLoad(o);
    assert Pow256(1) == 256 && Pow256(2) == 0x1_0000 && Pow256(3) == 0x100_0000;
    ByteswapReversesBytes(4, v, 0);
    forall x: u32 | FromInAddr(x) == a
      ensures x == ToInAddr(a)
    {
      BitsAreABijection(a, Byteswap(4, x));
      ByteswapReversesBytes(4, x, 0);
    }
  }

  /** In memory the host-order value is the octets backwards. */
  lemma StoreBits(a: Ipv4Address)
    ensures Store(4, ToBits(a)) == Reverse(a.octets)
  {
    var o, v := a.octets, ToBits(a);
    PackedQuotients(o[0], o[1], o[2], o[3]);
    PackedQuotients(0, o[0], o[1], o[2]);
    PackedQuotients(0, 0, o[0], o[1]);
    assert Store(1, v / 0x100_0000) == [o[0]];
    assert Store(2, v / 0x1_0000) == [o[1], o[0]];
    assert Store(3, v / 0x100) == [o[2], o[1], o[0]];
    assert Store(4, v) == [o[3], o[2], o[1], o[0]];
    assert Reverse(o[3..]) == [o[3]];
    assert o[2..][1..] == o[3..] && Reverse(o[2..]) == [o[3], o[2]];
    assert o[1..][1..] == o[2..] && Reverse(o[1..]) == [o[3], o[2], o[1]];
  }

  datatype Ordering = Less | Equal | Greater

  /** `std::array`'s `<`: the first differing octet decides. */
  predicate OctetsLess(x: seq<u8>, y: seq<u8>)
    requires |x| == |y|
  {
    x != [] && (x[0] < y[0] || (x[0] == y[0] && OctetsLess(x[1..], y[1..])))
  }

  function Compare(a: Ipv4Address, b: Ipv4Address): Ordering {
    if a.octets == b.octets then Equal
    else if OctetsLess(a.octets, b.octets) then Less else Greater
  }

  lemma OctetsLessIsBitsLess(a: Ipv4Address, b: Ipv4Address)
    ensures OctetsLess(a.octets, b.octets) <==> ToBits(a) < ToBits(b)
  {
    var x, y := a.octets, b.octets;
    assert x[1..][1..] == x[2..] && x[2..][1..] == x[3..] && x[3..][1..] == [];
    assert y[1..][1..] == y[2..] && y[2..][1..] == y[3..] && y[3..][1..] == [];
    assert OctetsLess(x[3..], y[3..]) == (x[3] < y[3]);
    var x1: nat, x2: nat, x3: nat, y1: nat, y2: nat, y3: nat := x[1], x[2], x[3], y[1], y[2], y[3];
    assert OctetsLess(x[2..], y[2..]) == (256 * x2 + x3 < 256 * y2 + y3);
    assert OctetsLess(x[1..], y[1..]) == (0x1_0000 * x1 + 256 * x2 + x3 < 0x1_0000 * y1 + 256 * y2 + y3);
  }

  /** The three-way comparison is the unsigned comparison of the 32-bit values, hence a total order. */
  lemma CompareIsUnsignedOrder(a: Ipv4Address, b: Ipv4Address)
    ensures Compare(a, b) ==
            if ToBits(a) < ToBits(b) then Less else if ToBits(a) == ToBits(b) then Equal else Greater
  {
    OctetsLessIsBitsLess(a, b);
    FromBitsOf(a);
    FromBitsOf(b);
  }

  // ---- Text ----

  /** One octet as `parse` reads it: `from_chars` on the piece, with no look at where it stopped. */
  function Octet(p: string): Option<u8> {
    match FromChars(p, 255)
    case Parsed(v, _) => Some(v)
    case _ => None
  }

  /** A text that begins with exactly `n` digits, leading zeros or not, of value `v`; anything may follow them. */
  predicate OctetUpTo(p: string, n: nat, v: u8) {
    0 < n <= |p| && AllDigits(Decimal, p[..n]) && (n < |p| ==> !IsDigit(Decimal, p[n])) && Value(Decimal, p[..n]) == v
  }

  ghost predicate BeginsWithOctet(p: string, v: u8) {
    exists n: nat :: OctetUpTo(p, n, v)
  }

  ghost predicate BeginsWithSomeOctet(p: string) {
    exists v: u8 :: BeginsWithOctet(p, v)
  }

  /** Each of the first `n` pieces, as far as there are that many, begins with a number of value at most 255. */
  ghost predicate AllBeginWithOctets(ps: seq<string>, n: int) {
    forall j :: 0 <= j < n && j < |ps| ==> BeginsWithSomeOctet(ps[j])
  }

  lemma OctetMeaning(p: string, v: u8)
    ensures Octet(p) == Some(v) <==> BeginsWithOctet(p, v)
  {
    var n := DigitRun(p);
    if Octet(p) == Some(v) {
      assert OctetUpTo(p, n, v);
    }
    if BeginsWithOctet(p, v) {
      var k: nat :| OctetUpTo(p, k, v);
      FromCharsMeaning(p, 255, k);
    }
  }

  lemma SomeOctet(p: string)
    ensures Octet(p).Some? <==> BeginsWithSomeOctet(p)
  {
    if Octet(p).Some? {
      var v: u8 := Octet(p).value;
      OctetMeaning(p, v);
      assert BeginsWithOctet(p, v);
    }
    forall v: u8 | BeginsWithOctet(p, v)
      ensures Octet(p).Some?
    {
      OctetMeaning(p, v);
    }
  }

  lemma GoodOctetsMeaning(ps: seq<string>, n: int)
    ensures GoodOctets(ps, n) <==> AllBeginWithOctets(ps, n)
  {
    forall j | 0 <= j < |ps|
      ensures Octet(ps[j]).Some? <==> BeginsWithSomeOctet(ps[j])
    {
      SomeOctet(ps[j]);
    }
  }

  /** The error `parse` gives for the dot-separated pieces, looking from index `i` on. */
  function FirstError(ps: seq<string>, i: nat): Option<Ipv4ParseError>
    requires i <= 4 && |ps| > 0 && (i < 4 ==> i < |ps|)
    decreases 4 - i
  {
    if i == 4 then (if |ps| > 4 then Some(TrailingData) else None)
    else if i < 3 && i + 1 == |ps| then Some(MissingOctets)
    else if Octet(ps[i]).None? then Some(InvalidOctet)
    else FirstError(ps, i + 1)
  }

  /** Each of the first `n` pieces, as far as there are that many, begins with an octet. */
  predicate GoodOctets(ps: seq<string>, n: int) {
    forall j :: 0 <= j < n && j < |ps| ==> Octet(ps[j]).Some?
  }

  lemma {:induction false} FirstErrorMeaning(ps: seq<string>, i: nat)
    requires i <= 4 && |ps| > 0 && (i < 4 ==> i < |ps|) && (i == 4 ==> |ps| >= 4) && GoodOctets(ps, i)
    ensures var e := FirstError(ps, i);
            && (e == None <==> |ps| == 4 && GoodOctets(ps, 4))
            && (e == Some(TrailingData) <==> |ps| > 4 && GoodOctets(ps, 4))
            && (e == Some(MissingOctets) <==> |ps| < 4 && GoodOctets(ps, |ps| - 1))
    decreases 4 - i
  {
    if i < 4 && !(i < 3 && i + 1 == |ps|) && Octet(ps[i]).Some? {
      FirstErrorMeaning(ps, i + 1);
    }
  }

  /** What `parse` answers; `ReadMeaning` says it without the order of the checks, nor how a number is found. */
  function Read(s: string): Result<Ipv4Address, Ipv4ParseError> {
    var ps := Split(s, '.');
    match FirstError(ps, 0)
    case Some(e) => Err(e)
    case None =>
      FirstErrorMeaning(ps, 0);
      Ok(Ipv4Address([Octet(ps[0]).value, Octet(ps[1]).value, Octet(ps[2]).value, Octet(ps[3]).value]))
  }

  /** The answers by the pieces and the octets read from them. */
  lemma ReadCases(s: string)
    ensures var ps, r := Split(s, '.'), Read(s);
            && (r.Ok? <==> |ps| == 4 && GoodOctets(ps, 4))
            && (r.Ok? ==> forall j :: 0 <= j < 4 ==> Octet(ps[j]) == Some(r.value.octets[j]))
            && (r == Err(TrailingData) <==> |ps| > 4 && GoodOctets(ps, 4))
            && (r == Err(MissingOctets) <==> |ps| < 4 && GoodOctets(ps, |ps| - 1))
  {
    FirstErrorMeaning(Split(s, '.'), 0);
  }

  /**
   On every string: read as an address exactly when there are four dot-separated pieces, each beginning with a number
   of value at most 255, leading zeros or not, and these are its octets; four good pieces and more after them are
   trailing data; fewer than four are missing octets, unless a piece before the last is bad.
   */
  lemma ReadMeaning(s: string, a: Ipv4Address)
    ensures var ps, r := Split(s, '.'), Read(s);
            && (r == Ok(a) <==> |ps| == 4 && forall j :: 0 <= j < 4 ==> BeginsWithOctet(ps[j], a.octets[j]))
            && (r.Ok? <==> |ps| == 4 && AllBeginWithOctets(ps, 4))
            && (r == Err(TrailingData) <==> |ps| > 4 && AllBeginWithOctets(ps, 4))
            && (r == Err(MissingOctets) <==> |ps| < 4 && AllBeginWithOctets(ps, |ps| - 1))
  {
    var ps := Split(s, '.');
    ReadCases(s);
    GoodOctetsMeaning(ps, 4);
    GoodOctetsMeaning(ps, |ps| - 1);
    if |ps| == 4 {
      forall j | 0 <= j < 4
        ensures Octet(ps[j]) == Some(a.octets[j]) <==> BeginsWithOctet(ps[j], a.octets[j])
      {
        OctetMeaning(ps[j], a.octets[j]);
      }
      SameOctets(s, a);
    }
  }

  lemma SameOctets(s: string, a: Ipv4Address)
    requires |Split(s, '.')| == 4
    ensures Read(s) == Ok(a) <==> forall j :: 0 <= j < 4 ==> Octet(Split(s, '.')[j]) == Some(a.octets[j])
  {
    var ps := Split(s, '.');
    ReadCases(s);
    if forall j :: 0 <= j < 4 ==> Octet(ps[j]) == Some(a.octets[j]) {
      assert Read(s).value.octets == a.octets;
    }
  }

  /** The view `str` still holds the pieces from `i` on: what its first dot cuts off. */
  lemma NextPiece(str: string, ps: seq<string>, i: nat)
    requires i < |ps| && Split(str, '.') == ps[i..]
    ensures var n := IndexOf(str, '.');
            && ps[i] == str[..n]
            && (n == |str| <==> i + 1 == |ps|)
            && (n < |str| ==> Split(str[n + 1..], '.') == ps[i + 1..])
            && (str[n..] == "" <==> i + 1 == |ps|)
  {
    SplitHead(str, '.');
    assert ps[i..][1..] == ps[i + 1..];
  }

  lemma ReadErr(s: string, e: Ipv4ParseError)
    requires FirstError(Split(s, '.'), 0) == Some(e)
    ensures Read(s) == Err(e)
  {}

  lemma ReadOk(s: string, out: Octets)
    requires var ps := Split(s, '.');
             |ps| >= 4 && FirstError(ps, 0) == None && forall j :: 0 <= j < 4 ==> Octet(ps[j]) == Some(out[j])
    ensures Read(s) == Ok(Ipv4Address(out))
  {
    assert Read(s).value.octets == out;
  }

  /** The octet-by-octet loop of `Ipv4Address::parse`. */
  method Parse(text: string) returns (r: Result<Ipv4Address, Ipv4ParseError>)
    ensures r == Read(text)
  {
    var str := text;
    var out: seq<u8> := [0, 0, 0, 0];
    ghost var ps := Split(text, '.');
    ghost var verdict := FirstError(ps, 0);
    var i := 0;
    while i < 4
      invariant i <= 4 && |out| == 4
      invariant i < 4 ==> i < |ps| && Split(str, '.') == ps[i..]
      invariant i == 4 ==> |ps| >= 4 && (str == "" <==> |ps| == 4)
      invariant FirstError(ps, i) == verdict
      invariant forall j :: 0 <= j < i ==> Octet(ps[j]) == Some(out[j])
    {
      var nextDot := IndexOf(str, '.');
      NextPiece(str, ps, i);
      if nextDot == |str| && i < 3 {
        ReadErr(text, MissingOctets);
        return Err(MissingOctets);
      }
      var octetStr := str[..nextDot];
      var scan := FromChars(octetStr, 255);
      if !scan.Parsed? {
        ReadErr(text, InvalidOctet);
        return Err(InvalidOctet);
      }
      out := out[i := scan.value];
      if i < 3 {
        str := str[nextDot + 1..];
      } else {
        str := str[nextDot..];
      }
      i := i + 1;
    }
    if str != "" {
      ReadErr(text, TrailingData);
      return Err(TrailingData);
    }
    ReadOk(text, out);
    return Ok(Ipv4Address(out));
  }

  function Pieces(a: Ipv4Address): (ps: seq<string>)
    ensures |ps| == 4
    ensures forall i :: 0 <= i < 4 ==> ps[i] == Numeral(Decimal, a.octets[i])
  {
    seq(4, i requires 0 <= i < 4 => Numeral(Decimal, a.octets[i]))
  }

  function Text(a: Ipv4Address): string {
    Join(Pieces(a), '.')
  }

  method ToString(a: Ipv4Address) returns (str: string)
    ensures str == Text(a)
  {
    str := "";
    var i := 0;
    while i < 4
      invariant i <= 4
      invariant str == if i == 0 then "" else Join(Pieces(a)[..i], '.') + (if i < 4 then "." else "")
    {
      str := str + Numeral(Decimal, a.octets[i]);
      assert Pieces(a)[..i + 1] == Pieces(a)[..i] + [Pieces(a)[i]];
      if i > 0 {
        JoinAppend(Pieces(a)[..i], Pieces(a)[i], '.');
      }
      if i < 3 {
        str := str + ".";
      }
      i := i + 1;
    }
    assert Pieces(a)[..4] == Pieces(a);
  }

  /** Printed text splits back into its four numerals, and holds only digits and dots. */
  lemma TextShape(a: Ipv4Address)
    ensures Split(Text(a), '.') == Pieces(a)
    ensures forall c :: c in Text(a) ==> c == '.' || IsDigit(Decimal, c)
    ensures IsDigit(Decimal, Text(a)[0])
    ensures 7 <= |Text(a)| <= 15
  {
    var ps := Pieces(a);
    forall i | 0 <= i < 4
      ensures '.' !in ps[i] && 1 <= |ps[i]| <= 3 && (forall c :: c in ps[i] ==> IsDigit(Decimal, c))
    {
      DecimalLength(a.octets[i]);
    }
    SplitJoin(ps, '.');
    forall c | c in Text(a) && c != '.'
      ensures IsDigit(Decimal, c)
    {
      JoinChars(ps, '.', c);
    }
    assert ps[1..][1..] == ps[2..] && ps[2..][1..] == ps[3..];
    assert Join(ps[2..], '.') == ps[2] + "." + ps[3];
    assert Join(ps[1..], '.') == ps[1] + "." + Join(ps[2..], '.');
    assert Text(a) == ps[0] + "." + Join(ps[1..], '.');
  }

  lemma OctetOfNumeral(n: u8)
    ensures Octet(Numeral(Decimal, n)) == Some(n)
  {
    FromCharsNumeral(n, "", 255);
    assert Numeral(Decimal, n) + "" == Numeral(Decimal, n);
  }

  /** Parsing undoes printing. */
  lemma ReadText(a: Ipv4Address)
    ensures Read(Text(a)) == Ok(a)
  {
    TextShape(a);
    ReadCases(Text(a));
    forall i | 0 <= i < 4
      ensures Octet(Pieces(a)[i]) == Some(a.octets[i])
    {
      OctetOfNumeral(a.octets[i]);
    }
    assert Read(Text(a)).value.octets == a.octets;
  }

  // ---- The strict dotted quad of section 2.2 of RFC 4291, as inet_pton reads it ----

  function StrictOctet(p: string): Option<u8> {
    if p != "" && AllDigits(Decimal, p) && Minimal(p) && Value(Decimal, p) <= 255
    then Some(Value(Decimal, p)) else None
  }

  function StrictQuad(s: string): Option<Ipv4Address> {
    var ps := Split(s, '.');
    if |ps| == 4 && (forall i :: 0 <= i < 4 ==> StrictOctet(ps[i]).Some?)
    then Some(Ipv4Address([StrictOctet(ps[0]).value, StrictOctet(ps[1]).value,
                           StrictOctet(ps[2]).value, StrictOctet(ps[3]).value]))
    else None
  }

  lemma StrictQuadGivesText(s: string, a: Ipv4Address)
    requires StrictQuad(s) == Some(a)
    ensures s == Text(a)
  {
    var ps := Split(s, '.');
    forall i | 0 <= i < 4
      ensures ps[i] == Pieces(a)[i]
    {
      assert StrictOctet(ps[i]) == Some(a.octets[i]);
      MinimalIsNumeral(Decimal, ps[i]);
    }
    JoinSplit(s, '.');
    assert ps == Pieces(a);
  }

  lemma TextIsStrictQuad(a: Ipv4Address)
    ensures StrictQuad(Text(a)) == Some(a)
  {
    TextShape(a);
    forall i | 0 <= i < 4
      ensures StrictOctet(Pieces(a)[i]) == Some(a.octets[i])
    {
      NumeralValue(Decimal, a.octets[i]);
    }
    assert StrictQuad(Text(a)).value.octets == a.octets;
  }

  /** The strict reader takes exactly the printed texts: each address has one dotted quad. */
  lemma StrictQuadIsText(s: string, a: Ipv4Address)
    ensures StrictQuad(s) == Some(a) <==> s == Text(a)
  {
    TextIsStrictQuad(a);
    if StrictQuad(s) == Some(a) {
      StrictQuadGivesText(s, a);
    }
  }

  // ---- What the reader takes beyond dotted quads ----

  lemma OctetOfFirstPiece(s: string)
    ensures Octet(Split(s, '.')[0]) == Octet(s)
  {
    var n, i := DigitRun(s), IndexOf(s, '.');
    assert forall k :: 0 <= k < n ==> s[k] == s[..n][k];
    assert !IsDigit(Decimal, '.');
    assert n <= i && s[..i][..n] == s[..n];
    DigitRunUnique(s[..i], n);
  }

  /** An accepted text is the printed text of what it was read as exactly when its pieces are minimal numbers and nothing else. */
  lemma AcceptedIsText(s: string)
    requires Read(s).Ok?
    ensures s == Text(Read(s).value) <==>
            forall j :: 0 <= j < 4 ==> AllDigits(Decimal, Split(s, '.')[j]) && Minimal(Split(s, '.')[j])
  {
    var ps, a := Split(s, '.'), Read(s).value;
    ReadCases(s);
    if forall j :: 0 <= j < 4 ==> AllDigits(Decimal, ps[j]) && Minimal(ps[j]) {
      forall j | 0 <= j < 4
        ensures ps[j] == Pieces(a)[j]
      {
        WholeOctet(ps[j]);
      }
      assert ps == Pieces(a);
      JoinSplit(s, '.');
    }
    if s == Text(a) {
      TextShape(a);
      forall j | 0 <= j < 4
        ensures AllDigits(Decimal, ps[j]) && Minimal(ps[j])
      {
        NumeralValue(Decimal, a.octets[j]);
      }
    }
  }

  lemma WholeOctet(p: string)
    requires Octet(p).Some? && AllDigits(Decimal, p) && Minimal(p)
    ensures p == Numeral(Decimal, Octet(p).value)
  {
    assert p[..|p|] == p;
    DigitRunUnique(p, |p|);
    MinimalIsNumeral(Decimal, p);
  }

  /** A text that does not begin with a digit, and so cannot prolong a number put before it. */
  predicate Junk(t: string) {
    t == "" || !IsDigit(Decimal, t[0])
  }

  /** An address with something behind each of its four numbers. */
  function Littered(a: Ipv4Address, junks: seq<string>): string
    requires |junks| == 4
  {
    var ps := Pieces(a);
    ps[0] + junks[0] + "." + (ps[1] + junks[1] + "." + (ps[2] + junks[2] + "." + (ps[3] + junks[3])))
  }

  lemma SplitTwo(b: string, c: string, rest: string)
    requires '.' !in b && '.' !in c
    ensures Split(b + "." + (c + "." + rest), '.') == [b] + ([c] + Split(rest, '.'))
  {
    SplitStep(c, '.', rest);
    SplitStep(b, '.', c + "." + rest);
  }

  lemma SplitThree(a: string, b: string, c: string, rest: string)
    requires '.' !in a && '.' !in b && '.' !in c
    ensures Split(a + "." + (b + "." + (c + "." + rest)), '.') == [a, b, c] + Split(rest, '.')
  {
    SplitTwo(b, c, rest);
    SplitStep(a, '.', b + "." + (c + "." + rest));
    ThreeAndRest(a, b, c, Split(rest, '.'));
  }

  lemma ThreeAndRest(a: string, b: string, c: string, ps: seq<string>)
    ensures [a] + ([b] + ([c] + ps)) == [a, b, c] + ps
  {}

  lemma OctetWithJunk(n: u8, junk: string)
    requires Junk(junk)
    ensures Octet(Numeral(Decimal, n) + junk) == Some(n)
    ensures '.' in Numeral(Decimal, n) + junk <==> '.' in junk
  {
    FromCharsNumeral(n, junk, 255);
    var t := Numeral(Decimal, n);
    assert AllDigits(Decimal, t) && !IsDigit(Decimal, '.');
    assert '.' !in t;
  }

  /**
   The reader does not look where a number stopped: dotless text behind any of the four numbers is ignored, if it does
   not go on with a digit; behind the last number a dot makes it trailing data.
   */
  lemma IgnoresJunk(a: Ipv4Address, junks: seq<string>)
    requires |junks| == 4 && forall j :: 0 <= j < 4 ==> Junk(junks[j])
    requires forall j :: 0 <= j < 3 ==> '.' !in junks[j]
    ensures Read(Littered(a, junks)) == if '.' in junks[3] then Err(TrailingData) else Ok(a)
  {
    var qs := Pieces(a);
    forall j | 0 <= j < 4
      ensures Octet(qs[j] + junks[j]) == Some(a.octets[j]) && ('.' in qs[j] + junks[j] <==> '.' in junks[j])
    {
      OctetWithJunk(a.octets[j], junks[j]);
    }
    FourTexts(qs[0] + junks[0], qs[1] + junks[1], qs[2] + junks[2], qs[3] + junks[3], a);
  }

  /** Four texts with a dot between them, each beginning with an octet, the first three without a dot. */
  lemma FourTexts(t0: string, t1: string, t2: string, last: string, a: Ipv4Address)
    requires '.' !in t0 && '.' !in t1 && '.' !in t2
    requires Octet(t0) == Some(a.octets[0]) && Octet(t1) == Some(a.octets[1])
    requires Octet(t2) == Some(a.octets[2]) && Octet(last) == Some(a.octets[3])
    ensures Read(t0 + "." + (t1 + "." + (t2 + "." + last))) == if '.' in last then Err(TrailingData) else Ok(a)
  {
    SplitThree(t0, t1, t2, last);
    OctetOfFirstPiece(last);
    LonePiece(last);
    FourPieces(t0 + "." + (t1 + "." + (t2 + "." + last)), [t0, t1, t2], Split(last, '.'), a);
  }

  lemma LonePiece(t: string)
    ensures |Split(t, '.')| == 1 <==> '.' !in t
  {
    SplitHead(t, '.');
    if '.' !in t {
      IndexOfAbsent(t, '.');
    } else if IndexOf(t, '.') < |t| {
      assert t[IndexOf(t, '.')] == '.';
    }
  }

  /** Four good octets in front: the number of pieces decides. */
  lemma FourPieces(s: string, front: seq<string>, back: seq<string>, a: Ipv4Address)
    requires |front| == 3 && |back| > 0 && Split(s, '.') == front + back
    requires (forall j :: 0 <= j < 3 ==> Octet(front[j]) == Some(a.octets[j])) && Octet(back[0]) == Some(a.octets[3])
    ensures Read(s) == if |back| > 1 then Err(TrailingData) else Ok(a)
  {
    var ps := Split(s, '.');
    forall j | 0 <= j < 4
      ensures Octet(ps[j]) == Some(a.octets[j])
    {
      assert ps[j] == if j < 3 then front[j] else back[0];
    }
    ReadCases(s);
    if |back| == 1 {
      assert Read(s).value.octets == a.octets;
    }
  }

  /** The address 1.2.3.4 with something behind each number. */
  lemma OneTwoThreeFour(x: string, y: string, z: string, w: string)
    requires Junk(x) && Junk(y) && Junk(z) && Junk(w) && '.' !in x && '.' !in y && '.' !in z && '.' !in w
    ensures Read("1" + x + "." + ("2" + y + "." + ("3" + z + "." + ("4" + w)))) == Ok(Ipv4Address([1, 2, 3, 4]))
  {
    assert Numeral(Decimal, 1) == "1" && Numeral(Decimal, 2) == "2";
    assert Numeral(Decimal, 3) == "3" && Numeral(Decimal, 4) == "4";
    IgnoresJunk(Ipv4Address([1, 2, 3, 4]), [x, y, z, w]);
  }

  /** An accepted text that is no dotted quad. */
  lemma LitteredExample()
    ensures Read("1x.2.3.4y") == Ok(Ipv4Address([1, 2, 3, 4]))
    ensures forall a :: Text(a) != "1x.2.3.4y" && StrictQuad("1x.2.3.4y") != Some(a)
  {
    LitteredReads();
    LitteredIsNoQuad();
  }

  lemma LitteredIsNoQuad()
    ensures forall a :: Text(a) != "1x.2.3.4y" && StrictQuad("1x.2.3.4y") != Some(a)
  {
    assert "1x.2.3.4y"[1] == 'x' && !IsDigit(Decimal, 'x');
    LetterIsNoQuad("1x.2.3.4y", 1);
  }

  lemma LitteredReads()
    ensures Read("1x.2.3.4y") == Ok(Ipv4Address([1, 2, 3, 4]))
  {
    OneTwoThreeFour("x", "", "", "y");
    LitteredLiteral();
  }

  lemma LetterIsNoQuad(s: string, k: nat)
    requires k < |s| && s[k] != '.' && !IsDigit(Decimal, s[k])
    ensures forall a :: Text(a) != s && StrictQuad(s) != Some(a)
  {
    forall a
      ensures Text(a) != s && StrictQuad(s) != Some(a)
    {
      NoLetters(a, s, k);
      StrictQuadIsText(s, a);
    }
  }

  lemma NoLetters(a: Ipv4Address, s: string, k: nat)
    requires k < |s| && s[k] != '.' && !IsDigit(Decimal, s[k])
    ensures s != Text(a)
  {
    TextShape(a);
  }

  lemma LitteredLiteral()
    ensures "1" + "x" + "." + ("2" + "" + "." + ("3" + "" + "." + ("4" + "y"))) == "1x.2.3.4y"
  {
    assert "4" + "y" == "4y" && "3" + "" + "." == "3." && "2" + "" + "." == "2." && "1" + "x" + "." == "1x.";
    assert "3." + "4y" == "3.4y";
    assert "2." + "3.4y" == "2.3.4y";
  }
}
