/** src/NetworkAddress.cpp: a host text and a port, resolved late. Name resolution is a parameter. */
module Network {
  import opened Wrappers
  import opened Numerals
  import opened Strings
  import opened ByteOrder
  import Ipv4
  import opened Rfc4291
  import Ipv6
  import Ipv6Text
  import opened Ip
  import opened Endpoint

  datatype NetworkAddress = NetworkAddress(host: string, port: u16)

  datatype NetworkError = MissingPort | InvalidPort

  datatype ResolverError =
    | AddrFamily | TemporaryFailure | PermanentFailure | OutOfMemory | NoData
    | UnknownHost | ServiceNotFound | SocketNotSupported | TimedOut | Other

  type Resolver<T> = string -> Result<T, ResolverError>

  function FromSocketAddress(sa: SocketAddress): NetworkAddress {
    NetworkAddress(Ip.ToString(sa.address), sa.port)
  }

  function ToString(na: NetworkAddress): string {
    WithPort(na.host, na.port)
  }

  function Parse(s: string): Result<NetworkAddress, NetworkError> {
    match HostAndPort(s)
    case None => Err(NetworkError.MissingPort)
    case Some((host, p)) =>
      match ReadPort(p)
      case None => Err(NetworkError.InvalidPort)
      case Some(port) => Ok(NetworkAddress(host, port))
  }

  function ResolveV4(na: NetworkAddress, dns: Resolver<Ipv4.Ipv4Address>): Result<SocketAddressV4, ResolverError> {
    match Ipv4.Read(na.host)
    case Ok(a) => Ok(SocketAddressV4(a, na.port))
    case Err(_) =>
      match dns(na.host)
      case Ok(a) => Ok(SocketAddressV4(a, na.port))
      case Err(e) => Err(e)
  }

  function ResolveV6(na: NetworkAddress, dns: Resolver<Ipv6.Ipv6Address>): Result<SocketAddressV6, ResolverError> {
    match Ipv6.Read(na.host)
    case Ok(a) => Ok(SocketAddressV6(a, na.port))
    case Err(_) =>
      match dns(na.host)
      case Ok(a) => Ok(SocketAddressV6(a, na.port))
      case Err(e) => Err(e)
  }

  function Resolve(na: NetworkAddress, dns: Resolver<IpAddress>): Result<SocketAddress, ResolverError> {
    match Ipv4.Read(na.host)
    case Ok(a) => Ok(SocketAddress(V4(a), na.port))
    case Err(_) =>
      match Ipv6.Read(na.host)
      case Ok(a) => Ok(SocketAddress(V6(a), na.port))
      case Err(_) =>
        match dns(na.host)
        case Ok(a) => Ok(SocketAddress(a, na.port))
        case Err(e) => Err(e)
  }

  /** Parsing undoes printing exactly for the non-empty hosts, colons in them or not; an empty host loses its port. */
  lemma ParseToString(na: NetworkAddress)
    ensures Parse(ToString(na)) == Ok(na) <==> na.host != ""
    ensures na.host == "" ==> Parse(ToString(na)) == Err(NetworkError.MissingPort)
  {
    CutsWithPort(na.host, na.port);
  }

  lemma ParseParts(host: string, p: string)
    requires host != "" && ReadPort(p).Some?
    ensures Parse(host + [':'] + p) == Ok(NetworkAddress(host, ReadPort(p).value))
  {
    ReadPortMeaning(p);
    assert !IsDigit(Decimal, ':');
    CutsAtLastColon(host, p);
  }

  /**
   Accepted are exactly the texts that are a non-empty host, a colon and a spelling of a port, with that host and port;
   a port is invalid exactly behind a host and a colon, where it is not empty and holds no colon; else it is missing.
   */
  lemma ParseMeaning(s: string)
    ensures forall na :: Parse(s) == Ok(na) <==>
              exists p :: s == na.host + [':'] + p && na.host != "" && ReadPort(p) == Some(na.port)
    ensures Parse(s) == Err(NetworkError.InvalidPort) <==> exists host, p :: InvalidParts(s, host, p)
  {
    forall host, p | s == host + [':'] + p && host != "" && ReadPort(p).Some?
      ensures Parse(s) == Ok(NetworkAddress(host, ReadPort(p).value))
    {
      ParseParts(host, p);
    }
    forall host, p | InvalidParts(s, host, p)
      ensures Parse(s) == Err(NetworkError.InvalidPort)
    {
      CutsAtLastColon(host, p);
    }
    if Parse(s) != Err(NetworkError.MissingPort) {
      var i := LastIndexOf(s, ':');
      CutAround(s, i);
      if Parse(s) == Err(NetworkError.InvalidPort) {
        assert InvalidParts(s, s[..i], s[i + 1..]);
      }
    }
  }

  predicate InvalidParts(s: string, host: string, p: string) {
    s == host + [':'] + p && host != "" && p != "" && ':' !in p && ReadPort(p).None?
  }

  /** The text is the host and the numeral of the port around the last colon. */
  lemma ToStringMeaning(na: NetworkAddress)
    ensures var s, t := ToString(na), Numeral(Decimal, na.port);
            LastIndexOf(s, ':') == |na.host| && s[..|na.host|] == na.host && s[|na.host| + 1..] == t
  {
    CutsWithPort(na.host, na.port);
  }

  /**
   Whatever the host: the readers come first, the resolver's answer counts only when they refuse it, and is then
   passed on, an address with the port of this network address.
   */
  lemma ResolveMeaning(na: NetworkAddress, dns: Resolver<IpAddress>, a: IpAddress, e: ResolverError)
    ensures var r, v4, v6 := Resolve(na, dns), Ipv4.Read(na.host), Ipv6.Read(na.host);
            && (r == Ok(SocketAddress(a, na.port)) <==>
                  if v4.Ok? then a == V4(v4.value) else if v6.Ok? then a == V6(v6.value) else dns(na.host) == Ok(a))
            && (r.Ok? ==> r.value.port == na.port)
            && (r == Err(e) <==> v4.Err? && v6.Err? && dns(na.host) == Err(e))
  {}

  lemma ResolveFamilyMeaning(na: NetworkAddress, dns4: Resolver<Ipv4.Ipv4Address>, dns6: Resolver<Ipv6.Ipv6Address>,
                             e: ResolverError)
    ensures forall x :: ResolveV4(na, dns4) == Ok(x) <==>
              x.port == na.port && (if Ipv4.Read(na.host).Ok? then Ipv4.Read(na.host).value == x.address
                                    else dns4(na.host) == Ok(x.address))
    ensures forall x :: ResolveV6(na, dns6) == Ok(x) <==>
              x.port == na.port && (if Ipv6.Read(na.host).Ok? then Ipv6.Read(na.host).value == x.address
                                    else dns6(na.host) == Ok(x.address))
    ensures ResolveV4(na, dns4) == Err(e) <==> Ipv4.Read(na.host).Err? && dns4(na.host) == Err(e)
    ensures ResolveV6(na, dns6) == Err(e) <==> Ipv6.Read(na.host).Err? && dns6(na.host) == Err(e)
  {}

  /**
   A socket address made into a network address, printed, parsed and resolved comes back the same, whatever the
   name resolver would have said.
   */
  lemma ResolveRoundTrip(sa: SocketAddress, dns: Resolver<IpAddress>)
    ensures var na := FromSocketAddress(sa);
            Parse(ToString(na)) == Ok(na) && Resolve(na, dns) == Ok(sa)
  {
    PrintedIsUnbracketed(sa.address);
    ParseToString(FromSocketAddress(sa));
    match sa.address
    case V4(a) => Ipv4.ReadText(a);
    case V6(a) =>
      Ipv6Text.TextReads(a);
      V4RejectsPrintedV6(a);
  }

  /** The family-specific calls agree on their own family and ask the resolver about the other. */
  lemma ResolveFamilies(sa: SocketAddress, dns4: Resolver<Ipv4.Ipv4Address>, dns6: Resolver<Ipv6.Ipv6Address>)
    ensures var na := FromSocketAddress(sa);
            match sa.address
            case V4(a) =>
              ResolveV4(na, dns4) == Ok(SocketAddressV4(a, sa.port)) && Ipv6.Read(na.host).Err?
            case V6(a) =>
              ResolveV6(na, dns6) == Ok(SocketAddressV6(a, sa.port)) && Ipv4.Read(na.host).Err?
  {
    match sa.address
    case V4(a) =>
      Ipv4.ReadText(a);
      V6RejectsPrintedV4(a);
    case V6(a) =>
      Ipv6Text.TextReads(a);
      V4RejectsPrintedV6(a);
  }

  lemma V6RejectsPrintedV4(a: Ipv4.Ipv4Address)
    ensures Ipv6.Read(Ipv4.Text(a)).Err?
  {
    var s := Ipv4.Text(a);
    Ipv4.TextShape(a);
    Ipv6Text.NoNulIsWhole(s);
    QuadSide(a);
    NoColonNoGap(s);
  }

  /**
   A host that spells an IPv6 address resolves to it without the resolver, except when it ends in a dotted quad
   and begins with a decimal octet: here no length gate stands before the IPv4 reader.
   */
  lemma ResolveSpelling(s: string, port: u16, dns: Resolver<IpAddress>)
    requires InetPton(s).Some?
    ensures Resolve(NetworkAddress(s, port), dns) ==
            Ok(SocketAddress(V6(Ipv6.FromSegments(InetPton(s).value)), port))
            <==> !('.' in s && Ipv4.Octet(s).Some?)
  {
    AcceptedChars(s);
    V4TakesSpelling(s);
  }

  /** Such a host exists for every quad: `1::a.b.c.d` resolves to the IPv4 address 1.b.c.d. */
  lemma ResolveMisreads(q: Ipv4.Ipv4Address, port: u16, dns: Resolver<IpAddress>)
    ensures var s := "1" + "::" + Ipv4.Text(q);
            && InetPton(s).Some?
            && Resolve(NetworkAddress(s, port), dns) == Ok(SocketAddress(V4(Ipv4.Ipv4Address([1] + q.octets[1..])), port))
  {
    SpellingTakenForV4(q);
  }

  /**
   The text of a socket address read as a network address: it keeps its brackets as part of the host, so it resolves
   to the same address without the resolver exactly for IPv4; for IPv6 the answer is the resolver's.
   */
  lemma SocketTextAsNetworkAddress(sa: SocketAddress, dns: Resolver<IpAddress>)
    ensures var r := Parse(Endpoint.ToString(sa));
            && r.Ok? && r.value.port == sa.port
            && (sa.address.V4? ==> Resolve(r.value, dns) == Ok(sa))
            && (sa.address.V6? ==>
                  && r.value.host == "[" + Ipv6.Text(sa.address.v6) + "]"
                  && Ipv4.Read(r.value.host).Err? && Ipv6.Read(r.value.host).Err?
                  && Resolve(r.value, dns) ==
                     match dns(r.value.host)
                     case Ok(a) => Ok(SocketAddress(a, sa.port))
                     case Err(e) => Err(e))
  {
    match sa.address
    case V4(a) =>
      PrintedIsUnbracketed(V4(a));
      CutsWithPort(Ipv4.Text(a), sa.port);
      Ipv4.ReadText(a);
    case V6(a) =>
      var host := "[" + Ipv6.Text(a) + "]";
      CutsWithPort(host, sa.port);
      Unbracket(Ipv6.Text(a));
      BracketedIsNoV4(host);
      BracketsAreNoV6(Ipv6.Text(a));
  }

  lemma BracketsAreNoV6(t: string)
    ensures Ipv6.Read("[" + t + "]").Err?
  {
    var host := "[" + t + "]";
    assert host[0] == '[';
    assert '[' in CStr(host) by {
      assert IndexOf(host, '\0') > 0;
      assert CStr(host)[0] == '[';
    }
    V6ReadsPlainText(host, "");
  }
}
