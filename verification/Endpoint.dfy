/** src/SocketAddressV4.cpp, src/SocketAddressV6.cpp and src/SocketAddress.cpp: addresses with a port, and their text. */
module Endpoint {
  import opened Wrappers
  import opened Numerals
  import opened Strings
  import opened ByteOrder
  import Ipv4
  import Ipv6
  import Ipv6Text
  import opened Rfc4291
  import opened Ip

  datatype SocketAddressV4 = SocketAddressV4(address: Ipv4.Ipv4Address, port: u16)
  datatype SocketAddressV6 = SocketAddressV6(address: Ipv6.Ipv6Address, port: u16)
  datatype SocketAddress = SocketAddress(address: IpAddress, port: u16)

  datatype V4Error = MissingOctets | TrailingData | InvalidOctet | MissingPort | InvalidPort
  datatype V6Error = InvalidStructure | InvalidAddress | MissingPort | InvalidPort
  datatype ParseError = InvalidAddress | MissingPort | InvalidPort

  function FromV4(x: SocketAddressV4): SocketAddress {
    SocketAddress(V4(x.address), x.port)
  }

  function FromV6(x: SocketAddressV6): SocketAddress {
    SocketAddress(V6(x.address), x.port)
  }

  /** Cutting at the last colon, which may be neither missing nor at an end. */
  function HostAndPort(s: string): Option<(string, string)> {
    var colonPos := LastIndexOf(s, ':');
    if colonPos == -1 || colonPos == 0 || colonPos == |s| - 1 then None
    else Some((s[..colonPos], s[colonPos + 1..]))
  }

  /** A port is the whole of its text: here the stop position is checked. */
  function ReadPort(p: string): Option<u16> {
    match FromChars(p, 0xffff)
    case Parsed(v, stop) => if stop == |p| then Some(v) else None
    case _ => None
  }

  predicate Bracketed(host: string) {
    |host| >= 2 && host[0] == '[' && host[|host| - 1] == ']'
  }

  function FromIpv4Error(e: Ipv4.Ipv4ParseError): V4Error {
    match e
    case MissingOctets => V4Error.MissingOctets
    case TrailingData => V4Error.TrailingData
    case InvalidOctet => V4Error.InvalidOctet
  }

  // Each parser combines what the address part and the port part read as; the address is looked at first.

  function CombineV4(address: Result<Ipv4.Ipv4Address, Ipv4.Ipv4ParseError>, port: Option<u16>)
    : Result<SocketAddressV4, V4Error>
  {
    match address
    case Err(e) => Err(FromIpv4Error(e))
    case Ok(a) => if port.None? then Err(V4Error.InvalidPort) else Ok(SocketAddressV4(a, port.value))
  }

  function CombineV6(address: Result<Ipv6.Ipv6Address, V6Error>, port: Option<u16>): Result<SocketAddressV6, V6Error> {
    match address
    case Err(e) => Err(e)
    case Ok(a) => if port.None? then Err(V6Error.InvalidPort) else Ok(SocketAddressV6(a, port.value))
  }

  function Combine(address: Option<IpAddress>, port: Option<u16>): Result<SocketAddress, ParseError> {
    if address.None? then Err(ParseError.InvalidAddress)
    else if port.None? then Err(ParseError.InvalidPort)
    else Ok(SocketAddress(address.value, port.value))
  }

  function ParseV4(s: string): Result<SocketAddressV4, V4Error> {
    match HostAndPort(s)
    case None => Err(V4Error.MissingPort)
    case Some((host, p)) => CombineV4(Ipv4.Read(host), ReadPort(p))
  }

  /** The address in the brackets. */
  function ReadV6Host(host: string): Result<Ipv6.Ipv6Address, V6Error> {
    if !Bracketed(host) then Err(InvalidStructure)
    else
      match Ipv6.Read(host[1..|host| - 1])
      case Ok(a) => Ok(a)
      case Err(_) => Err(V6Error.InvalidAddress)
  }

  function ReadV6(s: string): Result<SocketAddressV6, V6Error> {
    match HostAndPort(s)
    case None => Err(V6Error.MissingPort)
    case Some((host, p)) => CombineV6(ReadV6Host(host), ReadPort(p))
  }

  /** Brackets decide the family of the host. */
  function ReadHost(host: string): Option<IpAddress> {
    if Bracketed(host) then
      match Ipv6.Read(host[1..|host| - 1])
      case Ok(a) => Some(V6(a))
      case Err(_) => None
    else
      match Ipv4.Read(host)
      case Ok(a) => Some(V4(a))
      case Err(_) => None
  }

  function Read(s: string): Result<SocketAddress, ParseError> {
    match HostAndPort(s)
    case None => Err(ParseError.MissingPort)
    case Some((host, p)) => Combine(ReadHost(host), ReadPort(p))
  }

  // ---- The parsers and printers that update a view or a string ----

  /** `remove_prefix(1)` and `remove_suffix(1)` on a bracketed view. */
  method TrimBrackets(host: string) returns (addressPart: string)
    requires Bracketed(host)
    ensures addressPart == host[1..|host| - 1]
  {
    addressPart := host[1..];
    addressPart := addressPart[..|addressPart| - 1];
  }

  /** The tail of every parser: the port, read once the address is known. */
  method ParsePort(portPart: string) returns (port: Option<u16>)
    ensures port == ReadPort(portPart)
  {
    var res := FromChars(portPart, 0xffff);
    if !res.Parsed? || res.stop != |portPart| {
      return None;
    }
    return Some(res.value);
  }

  /** The tests and trims on the host view. */
  method ParseV6Host(host: string) returns (r: Result<Ipv6.Ipv6Address, V6Error>)
    ensures r == ReadV6Host(host)
  {
    if |host| < 2 || host[0] != '[' || host[|host| - 1] != ']' {
      return Err(InvalidStructure);
    }
    var addressPart := TrimBrackets(host);
    var address := Ipv6.Read(addressPart);
    if address.Err? {
      return Err(V6Error.InvalidAddress);
    }
    return Ok(address.value);
  }

  method ParseV6Parts(str: string) returns (r: Result<SocketAddressV6, V6Error>)
    ensures r == ReadV6(str)
  {
    var colonPos := LastIndexOf(str, ':');
    if colonPos == -1 || colonPos == 0 || colonPos == |str| - 1 {
      return Err(V6Error.MissingPort);
    }
    var addressPart, portPart := str[..colonPos], str[colonPos + 1..];
    var address := ParseV6Host(addressPart);
    if address.Err? {
      return Err(address.error);
    }
    var port := ParsePort(portPart);
    if port.None? {
      return Err(V6Error.InvalidPort);
    }
    return Ok(SocketAddressV6(address.value, port.value));
  }

  /** Accepted exactly is an address text in brackets, a colon and a port; so every printed endpoint is read back. */
  method ParseV6(str: string) returns (r: Result<SocketAddressV6, V6Error>)
    ensures r == ReadV6(str)
    ensures forall x :: r == Ok(x) <==> exists t, p :: str == InBrackets(t, p) && SpellsV6(t, p, x)
    ensures forall x :: str == ToString(FromV6(x)) ==> r == Ok(x)
  {
    r := ParseV6Parts(str);
    ReadV6Accepts(str);
  }

  /** The branch on brackets: trims the view for IPv6, and gives the address that `outAddr` is set to. */
  method ParseHost(host: string) returns (r: Option<IpAddress>)
    ensures r == ReadHost(host)
  {
    var addressPart := host;
    if |addressPart| >= 2 && addressPart[0] == '[' && addressPart[|addressPart| - 1] == ']' {
      addressPart := TrimBrackets(addressPart);
      var addr := Ipv6.Read(addressPart);
      r := if addr.Ok? then Some(V6(addr.value)) else None;
    } else {
      var addr := Ipv4.Parse(addressPart);
      r := if addr.Ok? then Some(V4(addr.value)) else None;
    }
  }

  method ParseParts(str: string) returns (r: Result<SocketAddress, ParseError>)
    ensures r == Read(str)
  {
    var colonPos := LastIndexOf(str, ':');
    if colonPos == -1 || colonPos == 0 || colonPos == |str| - 1 {
      return Err(ParseError.MissingPort);
    }
    var addressPart, portPart := str[..colonPos], str[colonPos + 1..];
    var outAddr := ParseHost(addressPart);
    if outAddr.None? {
      return Err(ParseError.InvalidAddress);
    }
    var port := ParsePort(portPart);
    if port.None? {
      return Err(ParseError.InvalidPort);
    }
    return Ok(SocketAddress(outAddr.value, port.value));
  }

  /** What exactly one of the family parsers accepts, with its value; every printed endpoint is read back. */
  method Parse(str: string) returns (r: Result<SocketAddress, ParseError>)
    ensures r == Read(str)
    ensures r.Ok? <==> (ParseV4(str).Ok? && ReadV6(str).Err?) || (ReadV6(str).Ok? && ParseV4(str).Err?)
    ensures ParseV4(str).Ok? ==> r == Ok(FromV4(ParseV4(str).value))
    ensures ReadV6(str).Ok? ==> r == Ok(FromV6(ReadV6(str).value))
    ensures r == Err(ParseError.InvalidPort) <==>
            ParseV4(str) == Err(V4Error.InvalidPort) || ReadV6(str) == Err(V6Error.InvalidPort)
    ensures forall sa :: str == ToString(sa) ==> r == Ok(sa)
  {
    r := ParseParts(str);
    ParseIsTheUnion(str);
    forall sa | str == ToString(sa)
      ensures r == Ok(sa)
    {
      ReadToString(sa);
    }
  }

  function WithPort(host: string, port: u16): string {
    host + ":" + Numeral(Decimal, port)
  }

  function TextV4(x: SocketAddressV4): string {
    WithPort(Ipv4.Text(x.address), x.port)
  }

  /** No brackets, unlike what `ParseV6` asks for. */
  function TextV6(x: SocketAddressV6): string {
    WithPort(Ipv6.Text(x.address), x.port)
  }

  method ToStringV4(x: SocketAddressV4) returns (result: string)
    ensures result == TextV4(x)
    ensures ParseV4(result) == Ok(x) && Read(result) == Ok(FromV4(x))
    ensures HostAndPort(result) == Some((Ipv4.Text(x.address), Numeral(Decimal, x.port)))
  {
    result := Ipv4.ToString(x.address);
    result := result + ":";
    result := result + Numeral(Decimal, x.port);
    ReadToString(FromV4(x));
    PrintedV4IsUnbracketed(x.address);
    CutsWithPort(Ipv4.Text(x.address), x.port);
  }

  method ToStringV6(x: SocketAddressV6) returns (result: string)
    ensures result == TextV6(x)
    ensures ReadV6(result) == Err(InvalidStructure) && Read(result) == Err(ParseError.InvalidAddress)
    ensures HostAndPort(result) == Some((Ipv6.Text(x.address), Numeral(Decimal, x.port)))
  {
    result := Ipv6.ToString(x.address);
    result := result + ":";
    result := result + Numeral(Decimal, x.port);
    BareV6(x);
    PrintedV6IsUnbracketed(x.address);
    CutsWithPort(Ipv6.Text(x.address), x.port);
  }

  function ToString(sa: SocketAddress): string {
    match sa.address
    case V4(a) => WithPort(Ipv4.Text(a), sa.port)
    case V6(a) => WithPort("[" + Ipv6.Text(a) + "]", sa.port)
  }

  // ---- Main results ----

  /** A printed port is cut off at the last colon, whatever colons the host holds, and read back. */
  lemma CutsWithPort(host: string, port: u16)
    ensures var t := Numeral(Decimal, port);
            && LastIndexOf(WithPort(host, port), ':') == |host|
            && WithPort(host, port)[..|host|] == host && WithPort(host, port)[|host| + 1..] == t
            && (host != "" ==> HostAndPort(WithPort(host, port)) == Some((host, t)))
            && ReadPort(t) == Some(port)
  {
    var t := Numeral(Decimal, port);
    assert ':' !in t by {
      assert AllDigits(Decimal, t) && !IsDigit(Decimal, ':');
    }
    IndexAround(host, ':', t);
    assert WithPort(host, port) == host + [':'] + t;
    FromCharsNumeral(port, "", 0xffff);
    assert t + "" == t;
  }

  /** What is printed is the family's own text, in brackets for IPv6, a colon and the numeral of the port. */
  lemma ToStringMeaning(sa: SocketAddress)
    ensures sa.address.V4? ==> ToString(sa) == TextV4(SocketAddressV4(sa.address.v4, sa.port))
    ensures var host, s := Ip.ToString(sa.address), ToString(sa);
            HostAndPort(s) == Some((if sa.address.V4? then host else "[" + host + "]", Numeral(Decimal, sa.port)))
  {
    match sa.address
    case V4(a) =>
      PrintedV4IsUnbracketed(a);
      CutsWithPort(Ipv4.Text(a), sa.port);
    case V6(a) =>
      CutsWithPort("[" + Ipv6.Text(a) + "]", sa.port);
  }

  /** A port text is accepted exactly when it is all digits, not empty and at most 65535. */
  lemma ReadPortMeaning(p: string)
    ensures ReadPort(p).Some? <==> p != "" && AllDigits(Decimal, p) && Value(Decimal, p) <= 0xffff
    ensures ReadPort(p).Some? ==> ReadPort(p).value == Value(Decimal, p)
  {
    var n := DigitRun(p);
    if n == |p| {
      assert p[..n] == p;
    }
  }

  lemma BracketedIsNoV4(host: string)
    requires Bracketed(host)
    ensures Ipv4.Read(host).Err?
  {
    Ipv4.ReadCases(host);
    Ipv4.OctetOfFirstPiece(host);
    assert !IsDigit(Decimal, host[0]);
  }

  /**
   On every string the combined parser accepts what exactly one of the two family parsers accepts, with the
   same value; a missing port is the same in all three, and an invalid port is reported by one of them.
   */
  lemma ParseIsTheUnion(s: string)
    ensures Read(s).Ok? <==> ParseV4(s).Ok? || ReadV6(s).Ok?
    ensures !(ParseV4(s).Ok? && ReadV6(s).Ok?)
    ensures ParseV4(s).Ok? ==> Read(s) == Ok(FromV4(ParseV4(s).value))
    ensures ReadV6(s).Ok? ==> Read(s) == Ok(FromV6(ReadV6(s).value))
    ensures Read(s) == Err(ParseError.MissingPort) <==> ParseV4(s) == Err(V4Error.MissingPort)
    ensures Read(s) == Err(ParseError.MissingPort) <==> ReadV6(s) == Err(V6Error.MissingPort)
    ensures Read(s) == Err(ParseError.InvalidPort) <==>
            ParseV4(s) == Err(V4Error.InvalidPort) || ReadV6(s) == Err(V6Error.InvalidPort)
  {
    match HostAndPort(s)
    case None =>
      UnionWithoutPort(s);
    case Some((host, p)) =>
      if Bracketed(host) {
        UnionBracketed(s, host, p);
      } else {
        UnionBare(s, host, p);
      }
  }

  lemma UnionWithoutPort(s: string)
    requires HostAndPort(s) == None
    ensures Read(s) == Err(ParseError.MissingPort)
    ensures ParseV4(s) == Err(V4Error.MissingPort) && ReadV6(s) == Err(V6Error.MissingPort)
  {}

  lemma UnionBracketed(s: string, host: string, p: string)
    requires HostAndPort(s) == Some((host, p)) && Bracketed(host)
    ensures ParseV4(s).Err? && ParseV4(s) != Err(V4Error.MissingPort) && ParseV4(s) != Err(V4Error.InvalidPort)
    ensures Read(s).Ok? <==> ReadV6(s).Ok?
    ensures ReadV6(s).Ok? ==> Read(s) == Ok(FromV6(ReadV6(s).value))
    ensures Read(s) == Err(ParseError.InvalidPort) <==> ReadV6(s) == Err(V6Error.InvalidPort)
    ensures Read(s) != Err(ParseError.MissingPort) && ReadV6(s) != Err(V6Error.MissingPort)
  {
    BracketedV4(s, host, p);
    HostInBrackets(host);
    CombineAgreesV6(ReadV6Host(host), ReadHost(host), ReadPort(p));
  }

  lemma BracketedV4(s: string, host: string, p: string)
    requires HostAndPort(s) == Some((host, p)) && Bracketed(host)
    ensures ParseV4(s).Err? && ParseV4(s) != Err(V4Error.MissingPort) && ParseV4(s) != Err(V4Error.InvalidPort)
  {
    BracketedIsNoV4(host);
  }

  lemma HostInBrackets(host: string)
    requires Bracketed(host)
    ensures var r := ReadV6Host(host);
            && ReadHost(host) == (if r.Ok? then Some(V6(r.value)) else None)
            && (r.Err? ==> r.error == V6Error.InvalidAddress)
  {}

  lemma UnionBare(s: string, host: string, p: string)
    requires HostAndPort(s) == Some((host, p)) && !Bracketed(host)
    ensures ReadV6(s) == Err(InvalidStructure)
    ensures Read(s).Ok? <==> ParseV4(s).Ok?
    ensures ParseV4(s).Ok? ==> Read(s) == Ok(FromV4(ParseV4(s).value))
    ensures Read(s) == Err(ParseError.InvalidPort) <==> ParseV4(s) == Err(V4Error.InvalidPort)
    ensures Read(s) != Err(ParseError.MissingPort) && ParseV4(s) != Err(V4Error.MissingPort)
  {
    CombineAgreesV4(Ipv4.Read(host), ReadHost(host), ReadPort(p));
  }

  lemma CombineAgreesV4(r: Result<Ipv4.Ipv4Address, Ipv4.Ipv4ParseError>, ip: Option<IpAddress>, port: Option<u16>)
    requires ip == if r.Ok? then Some(V4(r.value)) else None
    ensures var x, y := CombineV4(r, port), Combine(ip, port);
            && (y.Ok? <==> x.Ok?) && (x.Ok? ==> y == Ok(FromV4(x.value)))
            && (y == Err(ParseError.InvalidPort) <==> x == Err(V4Error.InvalidPort))
  {}

  lemma CombineAgreesV6(r: Result<Ipv6.Ipv6Address, V6Error>, ip: Option<IpAddress>, port: Option<u16>)
    requires ip == (if r.Ok? then Some(V6(r.value)) else None) && (r.Err? ==> r.error == V6Error.InvalidAddress)
    ensures var x, y := CombineV6(r, port), Combine(ip, port);
            && (y.Ok? <==> x.Ok?) && (x.Ok? ==> y == Ok(FromV6(x.value)))
            && (y == Err(ParseError.InvalidPort) <==> x == Err(V6Error.InvalidPort))
            && y != Err(ParseError.MissingPort) && x != Err(V6Error.MissingPort)
  {}

  lemma CutsAtLastColon(host: string, p: string)
    requires host != "" && p != "" && ':' !in p
    ensures HostAndPort(host + [':'] + p) == Some((host, p))
  {
    IndexAround(host, ':', p);
  }

  /** All three parsers report a missing port exactly for the texts that are not host, colon and colon-free port. */
  lemma MissingPortMeaning(s: string)
    ensures Read(s) == Err(ParseError.MissingPort) <==>
            !exists host, p :: host != "" && p != "" && ':' !in p && s == host + [':'] + p
    ensures ParseV4(s) == Err(V4Error.MissingPort) <==> Read(s) == Err(ParseError.MissingPort)
    ensures ReadV6(s) == Err(V6Error.MissingPort) <==> Read(s) == Err(ParseError.MissingPort)
  {
    ParseIsTheUnion(s);
    forall host, p | host != "" && p != "" && ':' !in p && s == host + [':'] + p
      ensures HostAndPort(s).Some?
    {
      CutsAtLastColon(host, p);
    }
    if HostAndPort(s).Some? {
      var i := LastIndexOf(s, ':');
      CutAround(s, i);
      assert ':' !in s[i + 1..];
    }
  }

  /** The answer of the IPv6 endpoint parser to any host and port text: brackets first, then address, then port. */
  lemma ParseV6Meaning(host: string, p: string)
    requires host != "" && p != "" && ':' !in p
    ensures var r := ReadV6(host + [':'] + p);
            if exists t :: host == "[" + t + "]" then
              var t := host[1..|host| - 1];
              && (r.Ok? <==> Ipv6.Read(t).Ok? && ReadPort(p).Some?)
              && (r.Ok? ==> r.value == SocketAddressV6(Ipv6.Read(t).value, ReadPort(p).value))
              && (r == Err(V6Error.InvalidAddress) <==> Ipv6.Read(t).Err?)
              && (r == Err(V6Error.InvalidPort) <==> Ipv6.Read(t).Ok? && ReadPort(p).None?)
            else r == Err(InvalidStructure)
  {
    CutsAtLastColon(host, p);
    BracketedMeaning(host);
  }

  lemma BracketedMeaning(host: string)
    ensures Bracketed(host) <==> exists t :: host == "[" + t + "]"
  {
    if Bracketed(host) {
      assert host == "[" + host[1..|host| - 1] + "]";
    }
  }

  lemma CombineV4Meaning(r: Result<Ipv4.Ipv4Address, Ipv4.Ipv4ParseError>, port: Option<u16>)
    ensures var x := CombineV4(r, port);
            && (x.Ok? <==> r.Ok? && port.Some?)
            && (x.Ok? ==> x.value == SocketAddressV4(r.value, port.value))
            && (x == Err(V4Error.InvalidPort) <==> r.Ok? && port.None?)
            && (x == Err(V4Error.TrailingData) <==> r == Err(Ipv4.TrailingData))
            && (x == Err(V4Error.MissingOctets) <==> r == Err(Ipv4.MissingOctets))
            && x != Err(V4Error.MissingPort)
  {}

  /** The answer of the IPv4 endpoint parser to any host and port text, from the dot-separated pieces of the host. */
  lemma ParseV4Meaning(host: string, p: string)
    requires host != "" && p != "" && ':' !in p
    ensures var r, ps := ParseV4(host + [':'] + p), Split(host, '.');
            && (r.Ok? <==> |ps| == 4 && Ipv4.GoodOctets(ps, 4) && ReadPort(p).Some?)
            && (r.Ok? ==> r.value.port == ReadPort(p).value)
            && (r.Ok? ==> forall j :: 0 <= j < 4 ==> Ipv4.Octet(ps[j]) == Some(r.value.address.octets[j]))
            && (r == Err(V4Error.InvalidPort) <==> |ps| == 4 && Ipv4.GoodOctets(ps, 4) && ReadPort(p).None?)
            && (r == Err(V4Error.TrailingData) <==> |ps| > 4 && Ipv4.GoodOctets(ps, 4))
            && (r == Err(V4Error.MissingOctets) <==> |ps| < 4 && Ipv4.GoodOctets(ps, |ps| - 1))
            && r != Err(V4Error.MissingPort)
  {
    CutsAtLastColon(host, p);
    Ipv4.ReadCases(host);
    CombineV4Meaning(Ipv4.Read(host), ReadPort(p));
  }

  /** Brackets around a text are taken off again. */
  lemma Unbracket(t: string)
    ensures var h := "[" + t + "]"; Bracketed(h) && h[1..|h| - 1] == t
  {}

  lemma PrintedIsUnbracketed(a: IpAddress)
    ensures var t := Ip.ToString(a); t != "" && !Bracketed(t)
  {
    match a
    case V4(v4) => PrintedV4IsUnbracketed(v4);
    case V6(v6) => PrintedV6IsUnbracketed(v6);
  }

  lemma PrintedV4IsUnbracketed(v4: Ipv4.Ipv4Address)
    ensures Ipv4.Text(v4) != "" && !Bracketed(Ipv4.Text(v4))
  {
    Ipv4.TextShape(v4);
    assert !IsDigit(Decimal, '[');
  }

  lemma PrintedV6IsUnbracketed(v6: Ipv6.Ipv6Address)
    ensures Ipv6.Text(v6) != "" && !Bracketed(Ipv6.Text(v6))
  {
    var t := Ipv6.Text(v6);
    Ipv6Text.TextChars(v6);
    Ipv6Text.TextReads(v6);
    NoEmptySpelling();
    assert t[0] in t && !Ipv6Text.GroupChar('[');
  }

  /** Parsing undoes printing for both families and every port; the family printers behave differently. */
  lemma ReadToString(sa: SocketAddress)
    ensures Read(ToString(sa)) == Ok(sa)
    ensures sa.address.V4? ==> ParseV4(ToString(sa)) == Ok(SocketAddressV4(sa.address.v4, sa.port))
    ensures sa.address.V6? ==> ReadV6(ToString(sa)) == Ok(SocketAddressV6(sa.address.v6, sa.port))
  {
    match sa.address
    case V4(a) => ReadTextV4(a, sa.port);
    case V6(a) => ReadBracketedText(a, sa.port);
  }

  lemma ReadTextV4(a: Ipv4.Ipv4Address, port: u16)
    ensures var s := WithPort(Ipv4.Text(a), port);
            Read(s) == Ok(SocketAddress(V4(a), port)) && ParseV4(s) == Ok(SocketAddressV4(a, port))
  {
    PrintedV4IsUnbracketed(a);
    CutsWithPort(Ipv4.Text(a), port);
    Ipv4.ReadText(a);
  }

  lemma ReadBracketedText(a: Ipv6.Ipv6Address, port: u16)
    ensures var s := WithPort("[" + Ipv6.Text(a) + "]", port);
            Read(s) == Ok(SocketAddress(V6(a), port)) && ReadV6(s) == Ok(SocketAddressV6(a, port))
  {
    Unbracket(Ipv6.Text(a));
    CutsWithPort("[" + Ipv6.Text(a) + "]", port);
    Ipv6Text.TextReads(a);
  }

  /** The V6 printer's text is no endpoint to either parser. */
  lemma BareV6(x: SocketAddressV6)
    ensures ReadV6(TextV6(x)) == Err(InvalidStructure) && Read(TextV6(x)) == Err(ParseError.InvalidAddress)
  {
    PrintedIsUnbracketed(V6(x.address));
    CutsWithPort(Ipv6.Text(x.address), x.port);
    V4RejectsPrintedV6(x.address);
  }

  /** The V4 printer round-trips; what the V6 printer writes, its own parser always rejects. */
  lemma FamilyTexts(x: SocketAddressV4, y: SocketAddressV6)
    ensures ParseV4(TextV4(x)) == Ok(x)
    ensures ReadV6(TextV6(y)) == Err(InvalidStructure)
  {
    PrintedIsUnbracketed(V4(x.address));
    PrintedIsUnbracketed(V6(y.address));
    CutsWithPort(Ipv4.Text(x.address), x.port);
    CutsWithPort(Ipv6.Text(y.address), y.port);
    Ipv4.ReadText(x.address);
  }

  // ---- What the bracketed form accepts ----

  function InBrackets(t: string, p: string): string {
    "[" + t + "]" + [':'] + p
  }

  predicate SpellsV6(t: string, p: string, x: SocketAddressV6) {
    Ipv6.Read(t) == Ok(x.address) && ReadPort(p) == Some(x.port)
  }

  lemma ReadsInBrackets(t: string, p: string, x: SocketAddressV6)
    requires SpellsV6(t, p, x)
    ensures ReadV6(InBrackets(t, p)) == Ok(x)
  {
    ReadPortMeaning(p);
    assert !IsDigit(Decimal, ':');
    CutsAtLastColon("[" + t + "]", p);
    Unbracket(t);
  }

  lemma BracketsOf(s: string, x: SocketAddressV6) returns (t: string, p: string)
    requires ReadV6(s) == Ok(x)
    ensures s == InBrackets(t, p) && SpellsV6(t, p, x)
  {
    var i := LastIndexOf(s, ':');
    var host := s[..i];
    t, p := host[1..|host| - 1], s[i + 1..];
    CutAround(s, i);
    Rebracket(host);
  }

  lemma Rebracket(host: string)
    requires Bracketed(host)
    ensures host == "[" + host[1..|host| - 1] + "]"
  {}

  lemma ReadV6Accepts(s: string)
    ensures forall x :: ReadV6(s) == Ok(x) <==> exists t, p :: s == InBrackets(t, p) && SpellsV6(t, p, x)
    ensures forall x :: s == ToString(FromV6(x)) ==> ReadV6(s) == Ok(x)
  {
    forall x | ReadV6(s) == Ok(x)
      ensures exists t, p :: s == InBrackets(t, p) && SpellsV6(t, p, x)
    {
      var t, p := BracketsOf(s, x);
    }
    forall x, t, p | s == InBrackets(t, p) && SpellsV6(t, p, x)
      ensures ReadV6(s) == Ok(x)
    {
      ReadsInBrackets(t, p, x);
    }
    forall x | s == ToString(FromV6(x))
      ensures ReadV6(s) == Ok(x)
    {
      ReadToString(FromV6(x));
    }
  }

  // ---- Spellings without brackets ----

  /**
   An RFC 4291 spelling without brackets is no endpoint host, but it is taken for an IPv4 one exactly when it ends in a
   dotted quad and begins with a decimal octet.
   */
  lemma UnbracketedSpelling(s: string, port: u16)
    requires InetPton(s).Some?
    ensures Read(WithPort(s, port)).Ok? <==> '.' in s && Ipv4.Octet(s).Some?
    ensures Read(WithPort(s, port)).Err? ==> Read(WithPort(s, port)) == Err(ParseError.InvalidAddress)
  {
    NoEmptySpelling();
    CutsWithPort(s, port);
    V4TakesSpelling(s);
    AcceptedChars(s);
    assert s[0] in s && !AddressChar('[');
  }

  lemma NoEmptySpelling()
    ensures InetPton("") == None
  {}

  /** Such a text exists for every quad: `1::a.b.c.d` and a port is read as the IPv4 endpoint 1.b.c.d. */
  lemma ReadMisreads(q: Ipv4.Ipv4Address, port: u16)
    ensures var s := "1" + "::" + Ipv4.Text(q);
            && InetPton(s).Some?
            && Read(WithPort(s, port)) ==
               Ok(FromV4(SocketAddressV4(Ipv4.Ipv4Address([1] + q.octets[1..]), port)))
  {
    var s := "1" + "::" + Ipv4.Text(q);
    SpellingTakenForV4(q);
    assert s[0] == '1';
    BareHostReads(s, Ipv4.Ipv4Address([1] + q.octets[1..]), port);
  }

  lemma BareHostReads(s: string, a: Ipv4.Ipv4Address, port: u16)
    requires s != "" && s[0] != '[' && Ipv4.Read(s) == Ok(a)
    ensures Read(WithPort(s, port)) == Ok(FromV4(SocketAddressV4(a, port)))
  {
    CutsWithPort(s, port);
  }
}
