/**
 src/SocketUtil.hpp: the 28-byte union of `sockaddr_in` and `sockaddr_in6` in the Linux layout, written by
 toSockAddr and read by fromSockAddr; and the destination address of src/UdpSocket.cpp.
 */
module SockAddr {
  import opened Wrappers
  import opened ByteOrder
  import Ipv4
  import Ipv6
  import opened Ip
  import opened Endpoint

  const AF_INET: u16 := 2
  const AF_INET6: u16 := 10
  const SIZE_V4: nat := 16
  const SIZE_V6: nat := 28

  function Family(sa: SocketAddress): u16 {
    if sa.address.V4? then AF_INET else AF_INET6
  }

  // ---- Byte images ----

  /** family, port and address in network order, eight bytes of padding. */
  function ImageV4(x: SocketAddressV4): (bs: seq<u8>)
    ensures |bs| == SIZE_V4
  {
    [2, 0] + [x.port / 256, x.port % 256] + x.address.octets + [0, 0, 0, 0, 0, 0, 0, 0]
  }

  /** family, port in network order, no flow information, address, no scope. */
  function ImageV6(x: SocketAddressV6): (bs: seq<u8>)
    ensures |bs| == SIZE_V6
  {
    [10, 0] + [x.port / 256, x.port % 256] + [0, 0, 0, 0] + x.address.octets + [0, 0, 0, 0]
  }

  function Image(sa: SocketAddress): (bs: seq<u8>)
    ensures |bs| == if sa.address.V4? then SIZE_V4 else SIZE_V6
  {
    match sa.address
    case V4(a) => ImageV4(SocketAddressV4(a, sa.port))
    case V6(a) => ImageV6(SocketAddressV6(a, sa.port))
  }

  /** Where the fields are: the family first, least significant byte first; port and address in network order. */
  lemma ImageLayout(sa: SocketAddress)
    ensures var bs := Image(sa);
            && bs[0] == Family(sa) && bs[1] == 0 && Ipv6.Segment(bs[2], bs[3]) == sa.port
            && (sa.address.V4? ==>
                  |bs| == 16 && bs[4..8] == sa.address.v4.octets && forall i :: 8 <= i < 16 ==> bs[i] == 0)
            && (sa.address.V6? ==>
                  |bs| == 28 && bs[8..24] == sa.address.v6.octets
                  && forall i :: 4 <= i < 8 || 24 <= i < 28 ==> bs[i] == 0)
  {
    var hi: nat, lo: nat := sa.port / 256, sa.port % 256;
    assert sa.port == 256 * hi + lo;
  }

  // ---- Reading the fields ----

  function FamilyOf(bs: seq<u8>): nat
    requires |bs| == SIZE_V6
  {
    Load(bs[0..2])
  }

  lemma FieldBound(bs: seq<u8>)
    ensures |bs| == 2 ==> Load(bs) < 0x1_0000
    ensures |bs| == 4 ==> Load(bs) < 0x1_0000_0000
  {
    assert Pow256(1) == 256 && Pow256(2) == 0x1_0000 && Pow256(3) == 0x100_0000;
  }

  function FromSockAddrV4(bs: seq<u8>): SocketAddressV4
    requires |bs| == SIZE_V6
  {
    FieldBound(bs[2..4]);
    FieldBound(bs[4..8]);
    SocketAddressV4(Ipv4.FromInAddr(Load(bs[4..8])), Bswap16(Load(bs[2..4])))
  }

  function FromSockAddrV6(bs: seq<u8>): SocketAddressV6
    requires |bs| == SIZE_V6
  {
    FieldBound(bs[2..4]);
    SocketAddressV6(Ipv6.Ipv6Address(bs[8..24]), Bswap16(Load(bs[2..4])))
  }

  /** `toSocketAddress`; a family other than the two is unreachable in the source. */
  function Decode(bs: seq<u8>): Option<SocketAddress>
    requires |bs| == SIZE_V6
  {
    if FamilyOf(bs) == AF_INET then Some(FromV4(FromSockAddrV4(bs)))
    else if FamilyOf(bs) == AF_INET6 then Some(FromV6(FromSockAddrV6(bs)))
    else None
  }

  /** `SocketAddress::fromSockAddr`, which takes every family but AF_INET for AF_INET6. */
  function FromSockAddr(bs: seq<u8>): SocketAddress
    requires |bs| == SIZE_V6
  {
    if FamilyOf(bs) == AF_INET then FromV4(FromSockAddrV4(bs)) else FromV6(FromSockAddrV6(bs))
  }

  /** An assignment overwrites the bytes of its own member and leaves the rest as they were. */
  function Overwrite(prior: seq<u8>, image: seq<u8>): (bs: seq<u8>)
    requires |image| <= |prior|
    ensures |bs| == |prior| && forall i :: 0 <= i < |bs| ==> bs[i] == if i < |image| then image[i] else prior[i]
  {
    image + prior[|image|..]
  }

  lemma PortImage(port: u16)
    ensures Load([port / 256, port % 256]) < 0x1_0000
    ensures Bswap16(Load([port / 256, port % 256])) == port
  {
    var hi: nat, lo: nat := port / 256, port % 256;
    assert port == 256 * hi + lo;
    Ipv6.LoadPair(hi, lo);
    assert Ipv6.Segment(hi, lo) == port;
  }

  lemma FamilyImage()
    ensures Load([2, 0]) == 2 && Load([10, 0]) == 10
  {
    assert [2, 0][1..] == [0] == [10, 0][1..] && Load([0]) == 0;
  }

  lemma DecodeV4(bs: seq<u8>, x: SocketAddressV4)
    requires |bs| == SIZE_V6 && ImageV4(x) <= bs
    ensures FamilyOf(bs) == AF_INET && FromSockAddrV4(bs) == x
  {
    var im := ImageV4(x);
    assert im[0..2] == [2, 0] && im[2..4] == [x.port / 256, x.port % 256] && im[4..8] == x.address.octets;
    assert bs[0..2] == im[0..2] && bs[2..4] == im[2..4] && bs[4..8] == im[4..8];
    FamilyImage();
    PortImage(x.port);
    Ipv4.InAddrIsNetworkOrder(x.address);
    assert Pow256(1) == 256 && Pow256(2) == 0x1_0000 && Pow256(3) == 0x100_0000;
    LoadStore(4, Ipv4.ToInAddr(x.address));
  }

  lemma DecodeV6(bs: seq<u8>, x: SocketAddressV6)
    requires |bs| == SIZE_V6 && ImageV6(x) <= bs
    ensures FamilyOf(bs) == AF_INET6 && FromSockAddrV6(bs) == x
  {
    var im := ImageV6(x);
    assert im[0..2] == [10, 0] && im[2..4] == [x.port / 256, x.port % 256] && im[8..24] == x.address.octets;
    assert bs[0..2] == im[0..2] && bs[2..4] == im[2..4] && bs[8..24] == im[8..24];
    FamilyImage();
    PortImage(x.port);
  }

  /** A buffer that begins with the image of an address decodes to it. */
  lemma DecodeImage(bs: seq<u8>, sa: SocketAddress)
    requires |bs| == SIZE_V6 && Image(sa) <= bs
    ensures Decode(bs) == Some(sa) && FromSockAddr(bs) == sa && FamilyOf(bs) == Family(sa)
  {
    match sa.address
    case V4(a) => DecodeV4(bs, SocketAddressV4(a, sa.port));
    case V6(a) => DecodeV6(bs, SocketAddressV6(a, sa.port));
  }

  lemma V4FieldsDecide(bs: seq<u8>, cs: seq<u8>)
    requires |bs| == |cs| == SIZE_V6 && bs[..8] == cs[..8]
    ensures FamilyOf(bs) == FamilyOf(cs) && FromSockAddrV4(bs) == FromSockAddrV4(cs)
  {
    assert bs[0..2] == bs[..8][0..2] && bs[2..4] == bs[..8][2..4] && bs[4..8] == bs[..8][4..8];
    assert cs[0..2] == cs[..8][0..2] && cs[2..4] == cs[..8][2..4] && cs[4..8] == cs[..8][4..8];
  }

  /** Any bytes are decoded by these fields, whatever the padding, flow information and scope hold. */
  lemma DecodeMeaning(bs: seq<u8>, sa: SocketAddress)
    requires |bs| == SIZE_V6
    ensures Decode(bs) == Some(sa) <==>
            && bs[0] == Family(sa) && bs[1] == 0 && Ipv6.Segment(bs[2], bs[3]) == sa.port
            && match sa.address
               case V4(a) => bs[4..8] == a.octets
               case V6(a) => bs[8..24] == a.octets
  {
    FamilyMeaning(bs);
    if bs[1] == 0 && bs[0] == AF_INET {
      V4Meaning(bs);
    } else if bs[1] == 0 && bs[0] == AF_INET6 {
      V6Meaning(bs);
    }
  }

  /** The reader without a check of the family takes what the other one refuses for an IPv6 address. */
  lemma FromSockAddrMeaning(bs: seq<u8>)
    requires |bs| == SIZE_V6
    ensures FromSockAddr(bs) ==
            match Decode(bs)
            case Some(sa) => sa
            case None => SocketAddress(V6(Ipv6.Ipv6Address(bs[8..24])), Ipv6.Segment(bs[2], bs[3]))
  {
    V6Meaning(bs);
  }

  lemma FamilyMeaning(bs: seq<u8>)
    requires |bs| == SIZE_V6
    ensures FamilyOf(bs) == AF_INET <==> bs[0] == AF_INET && bs[1] == 0
    ensures FamilyOf(bs) == AF_INET6 <==> bs[0] == AF_INET6 && bs[1] == 0
  {
    var lo: nat, hi: nat := bs[0], bs[1];
    assert bs[0..2] == [lo, hi];
    Ipv6.LoadPair(lo, hi);
  }

  lemma PortOf(hi: u8, lo: u8)
    ensures Ipv6.Segment(hi, lo) / 256 == hi && Ipv6.Segment(hi, lo) % 256 == lo
  {}

  lemma V4Meaning(bs: seq<u8>)
    requires |bs| == SIZE_V6 && bs[0] == AF_INET && bs[1] == 0
    ensures FromSockAddrV4(bs) == SocketAddressV4(Ipv4.Ipv4Address(bs[4..8]), Ipv6.Segment(bs[2], bs[3]))
  {
    PortOf(bs[2], bs[3]);
    var x := SocketAddressV4(Ipv4.Ipv4Address(bs[4..8]), Ipv6.Segment(bs[2], bs[3]));
    var cs := Overwrite(bs, ImageV4(x));
    assert cs[..8] == bs[..8];
    DecodeV4(cs, x);
    V4FieldsDecide(bs, cs);
  }

  lemma V6Meaning(bs: seq<u8>)
    requires |bs| == SIZE_V6
    ensures FromSockAddrV6(bs) == SocketAddressV6(Ipv6.Ipv6Address(bs[8..24]), Ipv6.Segment(bs[2], bs[3]))
  {
    PortOf(bs[2], bs[3]);
    PortImage(Ipv6.Segment(bs[2], bs[3]));
    assert bs[2..4] == [bs[2], bs[3]];
  }

  /** Whatever was in the buffer before, the address written last is the address read. */
  lemma DecodeOverwrite(prior: seq<u8>, sa: SocketAddress)
    requires |prior| == SIZE_V6
    ensures var bs := Overwrite(prior, Image(sa));
            Decode(bs) == Some(sa) && FromSockAddr(bs) == sa && FamilyOf(bs) == Family(sa)
  {
    DecodeImage(Overwrite(prior, Image(sa)), sa);
  }

  function AssignAll(bs: seq<u8>, sas: seq<SocketAddress>): (r: seq<u8>)
    requires |bs| == SIZE_V6
    ensures |r| == SIZE_V6
    decreases sas
  {
    if sas == [] then bs else AssignAll(Overwrite(bs, Image(sas[0])), sas[1..])
  }

  /** After any sequence of assignments of either family into one buffer, decoding gives the last. */
  lemma {:induction false} DecodeLast(bs: seq<u8>, sas: seq<SocketAddress>)
    requires |bs| == SIZE_V6 && sas != []
    ensures var r := AssignAll(bs, sas);
            Decode(r) == Some(sas[|sas| - 1]) && Image(sas[|sas| - 1]) <= r
    decreases sas
  {
    if |sas| == 1 {
      DecodeOverwrite(bs, sas[0]);
      assert AssignAll(bs, sas) == Overwrite(bs, Image(sas[0]));
    } else {
      DecodeLast(Overwrite(bs, Image(sas[0])), sas[1..]);
    }
  }

  // ---- The union itself ----

  /** Storing some bytes at an offset. */
  function Patch(bs: seq<u8>, at: nat, data: seq<u8>): (r: seq<u8>)
    requires at + |data| <= |bs|
    ensures |r| == |bs|
  {
    bs[..at] + data + bs[at + |data|..]
  }

  /** The four stores of the IPv4 member, in the order the source makes them. */
  lemma PatchesV4(bs: seq<u8>, x: SocketAddressV4)
    requires |bs| == SIZE_V6
    ensures var s1 := Patch(bs, 0, Store(2, AF_INET));
            var s2 := Patch(s1, 4, Store(4, Ipv4.ToInAddr(x.address)));
            var s3 := Patch(s2, 2, Store(2, Bswap16(x.port)));
            Patch(s3, 8, [0, 0, 0, 0, 0, 0, 0, 0]) == Overwrite(bs, ImageV4(x))
  {
    StoredFields(x.port);
    Ipv4.InAddrIsNetworkOrder(x.address);
    ThreeFields(bs, [2, 0], 4, x.address.octets, [x.port / 256, x.port % 256]);
    var head := [2, 0] + [x.port / 256, x.port % 256];
    assert head + bs[4..4] == head;
    OneField(head + x.address.octets, bs, [0, 0, 0, 0, 0, 0, 0, 0]);
  }

  /** The five stores of the IPv6 member. */
  lemma PatchesV6(bs: seq<u8>, x: SocketAddressV6)
    requires |bs| == SIZE_V6
    ensures var s1 := Patch(bs, 0, Store(2, AF_INET6));
            var s2 := Patch(s1, 8, x.address.octets);
            var s3 := Patch(s2, 2, Store(2, Bswap16(x.port)));
            var s4 := Patch(s3, 4, [0, 0, 0, 0]);
            Patch(s4, 24, [0, 0, 0, 0]) == Overwrite(bs, ImageV6(x))
  {
    StoredFields(x.port);
    ThreeFields(bs, [10, 0], 8, x.address.octets, [x.port / 256, x.port % 256]);
    var head, z := [10, 0] + [x.port / 256, x.port % 256], [0, 0, 0, 0];
    var s3 := head + bs[4..8] + x.address.octets + bs[24..];
    assert Patch(s3, 4, z) == head + z + x.address.octets + bs[24..];
    OneField(head + z + x.address.octets, bs, z);
  }

  lemma ThreeFields(bs: seq<u8>, family: seq<u8>, at: nat, octets: seq<u8>, port: seq<u8>)
    requires |bs| == SIZE_V6 && |family| == 2 && |port| == 2 && 4 <= at && at + |octets| <= SIZE_V6
    ensures Patch(Patch(Patch(bs, 0, family), at, octets), 2, port) ==
            family + port + bs[4..at] + octets + bs[at + |octets|..]
  {
    assert Patch(bs, 0, family) == family + bs[2..];
    assert Patch(family + bs[2..], at, octets) == family + bs[2..at] + octets + bs[at + |octets|..];
  }

  lemma OneField(done: seq<u8>, bs: seq<u8>, field: seq<u8>)
    requires |done| + |field| <= |bs|
    ensures Patch(done + bs[|done|..], |done|, field) == Overwrite(bs, done + field)
  {}

  class SockAddrAny {
    const bytes: array<u8>

    ghost predicate Valid()
      reads this
    {
      bytes.Length == SIZE_V6
    }

    /** The default constructor clears the storage. */
    constructor ()
      ensures Valid() && fresh(bytes) && bytes[..] == seq(SIZE_V6, _ => 0)
    {
      bytes := new u8[SIZE_V6](_ => 0);
    }

    /** The converting constructors assign into storage that holds anything. */
    constructor FromAddress(sa: SocketAddress)
      ensures Valid() && fresh(bytes)
      ensures Image(sa) <= bytes[..]
    {
      bytes := new u8[SIZE_V6];
      new;
      Assign(sa);
    }

    method Put(at: nat, data: seq<u8>)
      requires Valid() && at + |data| <= SIZE_V6
      modifies bytes
      ensures bytes[..] == Patch(old(bytes[..]), at, data)
    {
      forall i | 0 <= i < |data| {
        bytes[at + i] := data[i];
      }
    }

    /** `SocketAddressV4::toSockAddr` into the `v4` member, field by field. */
    method AssignV4(x: SocketAddressV4)
      requires Valid()
      modifies bytes
      ensures bytes[..] == Overwrite(old(bytes[..]), ImageV4(x))
    {
      PatchesV4(bytes[..], x);
      Put(0, Store(2, AF_INET));
      Put(4, Store(4, Ipv4.ToInAddr(x.address)));
      Put(2, Store(2, Bswap16(x.port)));
      Put(8, [0, 0, 0, 0, 0, 0, 0, 0]);
    }

    /** `SocketAddressV6::toSockAddr` into the `v6` member. */
    method AssignV6(x: SocketAddressV6)
      requires Valid()
      modifies bytes
      ensures bytes[..] == Overwrite(old(bytes[..]), ImageV6(x))
    {
      PatchesV6(bytes[..], x);
      Put(0, Store(2, AF_INET6));
      Put(8, x.address.octets);
      Put(2, Store(2, Bswap16(x.port)));
      Put(4, [0, 0, 0, 0]);
      Put(24, [0, 0, 0, 0]);
    }

    method Assign(sa: SocketAddress)
      requires Valid()
      modifies bytes
      ensures bytes[..] == Overwrite(old(bytes[..]), Image(sa))
    {
      match sa.address
      case V4(a) => AssignV4(SocketAddressV4(a, sa.port));
      case V6(a) => AssignV6(SocketAddressV6(a, sa.port));
    }

    /** `size()`: the length of the member the family names. */
    method Size() returns (n: nat)
      requires Valid()
      ensures forall sa :: Image(sa) <= bytes[..] ==> n == |Image(sa)|
    {
      var family := FamilyOf(bytes[..]);
      n := if family == AF_INET then SIZE_V4 else SIZE_V6;
      forall sa | Image(sa) <= bytes[..]
        ensures n == |Image(sa)|
      {
        DecodeImage(bytes[..], sa);
      }
    }

    method ToSocketAddress() returns (r: Option<SocketAddress>)
      requires Valid()
      ensures forall sa :: Image(sa) <= bytes[..] ==> r == Some(sa)
    {
      r := Decode(bytes[..]);
      forall sa | Image(sa) <= bytes[..]
        ensures r == Some(sa)
      {
        DecodeImage(bytes[..], sa);
      }
    }
  }

  lemma StoredFields(port: u16)
    ensures Store(2, AF_INET) == [2, 0] && Store(2, AF_INET6) == [10, 0]
    ensures Store(2, Bswap16(port)) == [port / 256, port % 256]
  {
    Bswap16IsByteswap(port);
    assert Store(1, 0) == [0];
  }

  // ---- Destinations of a UDP socket ----

  /** `constructDestAddr` before the bytes: off Linux an IPv6 socket reaches an IPv4 peer by its mapped address. */
  function DestAddr(sa: SocketAddress, ipv6: bool, linux: bool): SocketAddress {
    if !linux && ipv6 && sa.address.V4? then SocketAddress(V6(Ipv6.MappedFrom(sa.address.v4)), sa.port)
    else sa
  }

  /** The endpoint a peer address stands for, a mapped address standing for the IPv4 address in it. */
  function Unmapped(sa: SocketAddress): SocketAddress {
    match sa.address
    case V4(_) => sa
    case V6(a) =>
      match Ipv6.Mapped(a)
      case Some(v4) => SocketAddress(V4(v4), sa.port)
      case None => sa
  }

  method ConstructDestAddr(sa: SocketAddress, ipv6: bool, linux: bool) returns (dest: SockAddrAny)
    ensures dest.Valid() && fresh(dest) && fresh(dest.bytes)
    ensures Image(DestAddr(sa, ipv6, linux)) <= dest.bytes[..]
  {
    if !linux && ipv6 && sa.address.V4? {
      var v6Addr := SocketAddressV6(Ipv6.Ipv6Address(seq(16, _ => 0)), 0);
      var mapped := Ipv6.FromIpv4Mapped(sa.address.v4);
      v6Addr := v6Addr.(address := mapped);
      v6Addr := v6Addr.(port := sa.port);
      dest := new SockAddrAny.FromAddress(FromV6(v6Addr));
    } else {
      dest := new SockAddrAny.FromAddress(sa);
    }
  }

  /**
   The bytes handed to the kernel: of the IPv6 family for every peer of an IPv6 socket off Linux, and otherwise of the
   peer's own family, where they decode to the very endpoint asked for. Always they decode to it up to mapping, and two
   requests share their bytes only if they are the same endpoint up to mapping.
   */
  lemma DestinationMeaning(sa: SocketAddress, other: SocketAddress, ipv6: bool, linux: bool, stale: seq<u8>)
    requires |stale| == SIZE_V6
    ensures var d := DestAddr(sa, ipv6, linux);
            var bs := Overwrite(stale, Image(d));
            && FamilyOf(bs) == (if !linux && ipv6 then AF_INET6 else Family(sa))
            && (linux || !ipv6 || sa.address.V6? ==> Decode(bs) == Some(sa))
            && Decode(bs).Some? && Unmapped(Decode(bs).value) == Unmapped(sa)
            && Decode(bs).value.port == sa.port
            && (d == DestAddr(other, ipv6, linux) ==> Unmapped(sa) == Unmapped(other))
  {
    DecodeOverwrite(stale, DestAddr(sa, ipv6, linux));
    if sa.address.V4? { Ipv6.MappedEmbedding(Ipv6.MappedFrom(sa.address.v4), sa.address.v4); }
    if other.address.V4? { Ipv6.MappedEmbedding(Ipv6.MappedFrom(other.address.v4), other.address.v4); }
  }
}
