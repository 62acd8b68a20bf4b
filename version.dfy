/** The `version` payload: the identity a node announces at the start of a
    handshake, and its byte layout. Integers are little endian except the
    address fields (IP and port), which are in network byte order. */
module Versions {
  import opened Bytes
  import opened SerdeBitcoin
  import opened Io

  type Ipv4Octets = s: seq<byte> | |s| == 4 witness [0, 0, 0, 0]
  type Ipv6Octets = s: seq<byte> | |s| == 16 witness [0, 0, 0, 0, 0, 0, 0, 0, 0, 0, 0, 0, 0, 0, 0, 0]

  datatype IpAddr = V4(v4: Ipv4Octets) | V6(v6: Ipv6Octets)

  /** A socket address. IPv6 flow information and scope id are not part of
      the wire format and are not represented. */
  datatype SocketAddr = SocketAddr(ip: IpAddr, port: u16)

  datatype Version = Version(
    protocolVersion: i32,
    services: u64,
    timestamp: i64,
    receiverServices: u64,
    receiverAddress: SocketAddr,
    senderServices: u64,
    senderAddress: SocketAddr,
    nonce: u64,
    userAgent: Utf8,
    startHeight: i32,
    relay: bool)

  /** `Version::SIZE`: the encoded size with the default user agent. */
  const SIZE: nat := 100

  // Builder defaults that are constants.
  const DEFAULT_PROTOCOL_VERSION: i32 := 70016
  const DEFAULT_SERVICES: u64 := 1
  const DEFAULT_START_HEIGHT: i32 := 0
  const DEFAULT_RELAY: bool := false
  const DEFAULT_USER_AGENT_TEXT: string := "Satoshi:0.21.0"

  function DefaultUserAgent(): (r: Utf8)
    ensures |r| == 14
  {
    var s := Ascii(DEFAULT_USER_AGENT_TEXT);
    AsciiIsUtf8(s);
    s
  }

  /** `VersionBuilder::default()` with only the two addresses set. The clock
      reading and the random nonce the builder would draw are parameters. */
  function Build(receiver: SocketAddr, sender: SocketAddr, now: i64, nonce: u64): (v: Version)
    ensures v.receiverAddress == receiver && v.senderAddress == sender
    ensures v.timestamp == now && v.nonce == nonce
    ensures v.protocolVersion == 70016 && v.startHeight == 0 && !v.relay
    ensures v.services == v.receiverServices == v.senderServices == 1
    ensures v.userAgent == Ascii("Satoshi:0.21.0")
  {
    Version(DEFAULT_PROTOCOL_VERSION, DEFAULT_SERVICES, now, DEFAULT_SERVICES, receiver,
            DEFAULT_SERVICES, sender, nonce, DefaultUserAgent(), DEFAULT_START_HEIGHT, DEFAULT_RELAY)
  }

  // ---------------------------------------------------------------------
  // Addresses (section 2.5.5.2 of RFC 4291: IPv4-mapped IPv6 addresses).

  const MAPPED_PREFIX: seq<byte> := [0, 0, 0, 0, 0, 0, 0, 0, 0, 0, 0xff, 0xff]

  /** `Ipv4Addr::to_ipv6_mapped`. */
  function ToIpv6Mapped(a: Ipv4Octets): (r: Ipv6Octets)
    ensures r[..12] == MAPPED_PREFIX && r[12..] == a
  {
    MAPPED_PREFIX + a
  }

  /** The i-th 16-bit segment of an IPv6 address. */
  function Segment(o: Ipv6Octets, i: nat): u16
    requires i < 8
  {
    (o[2 * i] as int) * 256 + o[2 * i + 1]
  }

  /** `is_ipv4_mapped_ipv6`: the first five segments are zero and the sixth
      is 0xffff. */
  predicate IsIpv4MappedIpv6(o: Ipv6Octets) {
    Segment(o, 0) == 0 && Segment(o, 1) == 0 && Segment(o, 2) == 0 && Segment(o, 3) == 0
    && Segment(o, 4) == 0 && Segment(o, 5) == 0xffff
  }

  /** `Ipv6Addr::to_ipv4_mapped`: the last four octets when the first twelve
      are the mapped prefix. */
  function ToIpv4Mapped(o: Ipv6Octets): (r: Option<Ipv4Octets>)
    ensures r.Some? <==> o[..12] == MAPPED_PREFIX
    ensures r.Some? ==> r.value == o[12..]
  {
    if o[..12] == MAPPED_PREFIX then Some(o[12..]) else None
  }

  /** The segment test and the byte pattern of RFC 4291 agree. */
  lemma MappedIffPrefix(o: Ipv6Octets)
    ensures IsIpv4MappedIpv6(o) <==> o[..12] == MAPPED_PREFIX
  {
    if IsIpv4MappedIpv6(o) {
      forall i | 0 <= i < 5 ensures o[2 * i] == 0 && o[2 * i + 1] == 0 {
        assert Segment(o, i) == 0;
      }
      assert o[10] == 0xff && o[11] == 0xff by {
        assert Segment(o, 5) == 0xffff;
      }
      assert o[..12] == MAPPED_PREFIX;
    }
    if o[..12] == MAPPED_PREFIX {
      assert forall i :: 0 <= i < 12 ==> o[i] == MAPPED_PREFIX[i];
    }
  }

  /** The 16 octets written for an IP address. */
  function IpOctets(ip: IpAddr): (r: Ipv6Octets)
  {
    match ip
    case V4(a) => ToIpv6Mapped(a)
    case V6(o) => o
  }

  /** The address as it is written: the octets read as a big-endian u128,
      written back big endian, then the port big endian. */
  function AddressBytes(a: SocketAddr): (r: seq<byte>)
    ensures |r| == 18
  {
    U128Be(ReadU128Be(IpOctets(a.ip))) + U16Be(a.port)
  }

  /** The address field holds the IPv4-mapped form of an IPv4 address and an
      IPv6 address unchanged, followed by the big-endian port. */
  lemma AddressLayout(a: SocketAddr)
    ensures a.ip.V4? ==> AddressBytes(a)[..16] == MAPPED_PREFIX + a.ip.v4
    ensures a.ip.V6? ==> AddressBytes(a)[..16] == a.ip.v6
    ensures AddressBytes(a)[16..] == [a.port / 256, a.port % 256]
  {
    Pow256Widths();
    var o := IpOctets(a.ip);
    BeBytesOfValue(o);
    assert AddressBytes(a)[..16] == o;
    assert AddressBytes(a)[16..] == BeBytes(a.port, 2);
  }

  /** The IP part of address decoding: an IPv4-mapped address becomes IPv4
      (the extraction cannot fail, because it is only attempted once the
      segment test has passed), anything else stays IPv6. */
  function DecodeIp(o: Ipv6Octets): (ip: IpAddr)
    ensures IsIpv4MappedIpv6(o) ==> ip == V4(o[12..])
    ensures !IsIpv4MappedIpv6(o) ==> ip == V6(o)
  {
    MappedIffPrefix(o);
    if IsIpv4MappedIpv6(o) then V4(ToIpv4Mapped(o).value) else V6(o)
  }

  /** The address read back from 18 bytes. */
  function DecodeAddress(s: seq<byte>): SocketAddr
    requires |s| == 18
  {
    SocketAddr(DecodeIp(U128Be(ReadU128Be(s[..16]))), ReadU16Be(s[16..]))
  }

  /** An address that survives the round trip: not an IPv6 address that is
      itself IPv4-mapped (such an address comes back as IPv4). */
  predicate Canonical(a: SocketAddr) {
    !(a.ip.V6? && IsIpv4MappedIpv6(a.ip.v6))
  }

  lemma AddressRoundTrip(a: SocketAddr)
    requires Canonical(a)
    ensures DecodeAddress(AddressBytes(a)) == a
  {
    Pow256Widths();
    FieldRoundTrips();
    var o := IpOctets(a.ip);
    BeBytesOfValue(o);
    var b := AddressBytes(a);
    assert b[..16] == o;
    assert b[16..] == U16Be(a.port);
    BeBytesOfValue(b[..16]);
    if a.ip.V4? {
      MappedIffPrefix(o);
    }
  }

  /** An IPv6 address in IPv4-mapped form decodes as the IPv4 address of its
      last four octets: the round trip loses the distinction. */
  lemma MappedIpv6ComesBackAsIpv4(a: SocketAddr)
    requires a.ip.V6? && IsIpv4MappedIpv6(a.ip.v6)
    ensures DecodeAddress(AddressBytes(a)) == SocketAddr(V4(a.ip.v6[12..]), a.port)
  {
    Pow256Widths();
    FieldRoundTrips();
    var b := AddressBytes(a);
    BeBytesOfValue(a.ip.v6);
    assert b[..16] == a.ip.v6;
    assert b[16..] == U16Be(a.port);
    BeBytesOfValue(b[..16]);
  }

  /** 192.0.2.1 is written as ::ffff:c000:201 and read back as 192.0.2.1. */
  lemma DocumentationAddressExample(port: u16)
    ensures AddressBytes(SocketAddr(V4([192, 0, 2, 1]), port))[..16]
            == [0, 0, 0, 0, 0, 0, 0, 0, 0, 0, 0xff, 0xff, 0xc0, 0x00, 0x02, 0x01]
    ensures DecodeAddress(AddressBytes(SocketAddr(V4([192, 0, 2, 1]), port)))
            == SocketAddr(V4([192, 0, 2, 1]), port)
  {
    var a := SocketAddr(V4([192, 0, 2, 1]), port);
    AddressLayout(a);
    AddressRoundTrip(a);
  }

  // ---------------------------------------------------------------------
  // Serialization.

  /** The fixed 80 bytes before the user agent. */
  function Head(v: Version): (r: seq<byte>)
    ensures |r| == 80
  {
    I32Le(v.protocolVersion) + U64Le(v.services) + I64Le(v.timestamp)
    + U64Le(v.receiverServices) + AddressBytes(v.receiverAddress)
    + U64Le(v.senderServices) + AddressBytes(v.senderAddress)
    + U64Le(v.nonce)
  }

  function RelayByte(relay: bool): byte {
    if relay then 1 else 0
  }

  /** The bytes after the nonce: the user agent behind its one-byte length,
      the start height and the relay flag. */
  function Trailer(v: Version): (r: seq<byte>)
    requires |v.userAgent| <= 255
    ensures |r| == 6 + |v.userAgent|
  {
    [|v.userAgent|] + v.userAgent + I32Le(v.startHeight) + [RelayByte(v.relay)]
  }

  /** The encoding of a version payload; the user agent's length must fit in
      its one-byte prefix. */
  function Encode(v: Version): (r: Result<seq<byte>>)
    ensures r.Ok? <==> |v.userAgent| <= 255
    ensures r.Err? ==> r.error == InvalidUserAgentLength
    ensures r.Ok? ==> |r.value| == 86 + |v.userAgent|
  {
    if |v.userAgent| > 255 then Err(InvalidUserAgentLength)
    else Ok(Head(v) + Trailer(v))
  }

  /** `Version::serialize`: appends each field in wire order. */
  method Serialize(v: Version) returns (r: Result<seq<byte>>)
    ensures r == Encode(v)
  {
    var result: seq<byte> := [];
    result := result + I32Le(v.protocolVersion);
    result := result + U64Le(v.services);
    result := result + I64Le(v.timestamp);

    result := result + U64Le(v.receiverServices);
    result := result + U128Be(ReadU128Be(IpOctets(v.receiverAddress.ip)));
    result := result + U16Be(v.receiverAddress.port);

    result := result + U64Le(v.senderServices);
    result := result + U128Be(ReadU128Be(IpOctets(v.senderAddress.ip)));
    result := result + U16Be(v.senderAddress.port);

    result := result + U64Le(v.nonce);
    assert result == Head(v);
    if |v.userAgent| > 255 {
      return Err(InvalidUserAgentLength);
    }
    result := result + [|v.userAgent|];
    result := result + v.userAgent;
    result := result + I32Le(v.startHeight);
    result := result + [RelayByte(v.relay)];
    assert result == Head(v) + Trailer(v);
    return Ok(result);
  }

  // ---------------------------------------------------------------------
  // Deserialization.

  /** The decoding of a version payload: the fixed fields at offsets 0 to
      80, then the variable-length trailer. */
  function Decode(data: seq<byte>): (r: Result<Version>)
    ensures r.Err? ==> r.error == IoError || r.error == FailedToParseUserAgent
  {
    if |data| < 80 then Err(IoError)
    else match DecodeTrailer(data[80..])
      case Err(e) => Err(e)
      case Ok(t) => Ok(Assemble(data, t))
  }

  /** The version whose fixed fields are read from the first 80 bytes of
      data and whose user agent, start height and relay flag are t. */
  function Assemble(data: seq<byte>, t: (Utf8, i32, bool)): (v: Version)
    requires |data| >= 80
    ensures v.userAgent == t.0 && v.startHeight == t.1 && v.relay == t.2
  {
    Version(
      ReadI32Le(data[0..4]),
      ReadU64Le(data[4..12]),
      ReadI64Le(data[12..20]),
      ReadU64Le(data[20..28]),
      DecodeAddress(data[28..46]),
      ReadU64Le(data[46..54]),
      DecodeAddress(data[54..72]),
      ReadU64Le(data[72..80]),
      t.0, t.1, t.2)
  }

  /** The trailer: a length byte n, n bytes of user agent that must be UTF-8,
      a little-endian start height and a relay byte (nonzero is true). */
  function DecodeTrailer(t: seq<byte>): (r: Result<(Utf8, i32, bool)>)
    ensures r.Err? ==> r.error == IoError || r.error == FailedToParseUserAgent
    ensures r.Ok? ==> |t| >= 6 + |r.value.0| && t[0] as int == |r.value.0|
  {
    if |t| < 1 then Err(IoError)
    else
      var n := t[0] as int;
      if |t| < 1 + n then Err(IoError)
      else if !ValidUtf8(t[1..1 + n]) then Err(FailedToParseUserAgent)
      else if |t| < 6 + n then Err(IoError)
      else Ok((t[1..1 + n], ReadI32Le(t[1 + n..5 + n]), t[5 + n] != 0))
  }

  /** Reads an IP address (a big-endian u128, mapped back to IPv4 when it is
      IPv4-mapped) and then a big-endian port. */
  method ReadAddress(cursor: Cursor) returns (r: Result<SocketAddr>)
    modifies cursor
    ensures var p := old(cursor.pos); p + 18 <= |cursor.data| ==>
      r == Ok(DecodeAddress(cursor.data[p..p + 18])) && cursor.pos == p + 18
    ensures old(cursor.pos) + 18 > |cursor.data| ==> r == Err(IoError)
  {
    ghost var p := cursor.pos;
    var bits :- cursor.ReadU128Be();
    var octets := U128Be(bits);
    var ip: IpAddr;
    if IsIpv4MappedIpv6(octets) {
      MappedIffPrefix(octets);
      var mapped := ToIpv4Mapped(octets);
      if mapped.None? {
        return Err(FailedToMapToIpv4);
      }
      ip := V4(mapped.value);
    } else {
      ip := V6(octets);
    }
    var port :- cursor.ReadU16Be();
    assert cursor.data[p..p + 18][..16] == cursor.data[p..p + 16];
    assert cursor.data[p..p + 18][16..] == cursor.data[p + 16..p + 18];
    return Ok(SocketAddr(ip, port));
  }

  /** Reads the one-byte length of the user agent, then that many bytes,
      which must be UTF-8. */
  method ReadUserAgent(cursor: Cursor) returns (r: Result<Utf8>)
    modifies cursor
    ensures var p := old(cursor.pos); var d := cursor.data;
      && (p + 1 > |d| ==> r == Err(IoError))
      && (p + 1 <= |d| && p + 1 + d[p] > |d| ==> r == Err(IoError))
      && (p + 1 <= |d| && p + 1 + d[p] <= |d| ==>
            && (ValidUtf8(d[p + 1..p + 1 + d[p]]) ==> r == Ok(d[p + 1..p + 1 + d[p]]))
            && (!ValidUtf8(d[p + 1..p + 1 + d[p]]) ==> r == Err(FailedToParseUserAgent))
            && cursor.pos == p + 1 + d[p])
  {
    var length :- cursor.ReadU8();
    var bytes :- cursor.ReadExact(length);
    if !ValidUtf8(bytes) {
      return Err(FailedToParseUserAgent);
    }
    return Ok(bytes);
  }

  /** Reads the trailer: the user agent, the start height and the relay flag. */
  method ReadTrailer(cursor: Cursor) returns (r: Result<(Utf8, i32, bool)>)
    requires cursor.pos <= |cursor.data|
    modifies cursor
    ensures r == DecodeTrailer(cursor.data[old(cursor.pos)..])
  {
    ghost var p, d := cursor.pos, cursor.data;
    ghost var t := d[p..];
    if p < |d| && p + 1 + d[p] <= |d| {
      assert t[1..1 + d[p]] == d[p + 1..p + 1 + d[p]];
    }
    var userAgent :- ReadUserAgent(cursor);
    ghost var n := |userAgent|;
    assert t[0] as int == n && t[1..1 + n] == userAgent;
    var startHeight :- cursor.ReadI32Le();
    assert t[1 + n..5 + n] == d[p + 1 + n..p + 5 + n];
    var relay :- cursor.ReadU8();
    return Ok((userAgent, startHeight, relay != 0));
  }

  /** `Version::deserialize`: reads the fields one after the other from a
      cursor, stopping at the first read that runs out of bytes. */
  method Deserialize(data: seq<byte>) returns (r: Result<Version>)
    ensures r == Decode(data)
  {
    var cursor := new Cursor(data);
    var protocolVersion :- cursor.ReadI32Le();
    assert cursor.pos == 4;
    var services :- cursor.ReadU64Le();
    assert cursor.pos == 12;
    var timestamp :- cursor.ReadI64Le();
    assert cursor.pos == 20;

    var receiverServices :- cursor.ReadU64Le();
    assert cursor.pos == 28;
    var receiverAddress :- ReadAddress(cursor);
    assert cursor.pos == 46;
    var senderServices :- cursor.ReadU64Le();
    assert cursor.pos == 54;
    var senderAddress :- ReadAddress(cursor);
    assert cursor.pos == 72;

    var nonce :- cursor.ReadU64Le();
    assert cursor.pos == 80;
    var trailer :- ReadTrailer(cursor);
    return Ok(Version(protocolVersion, services, timestamp, receiverServices, receiverAddress,
                      senderServices, senderAddress, nonce, trailer.0, trailer.1, trailer.2));
  }

  // ---------------------------------------------------------------------
  // Properties.

  /** Where each fixed field lands in the first 80 bytes. */
  lemma HeadLayout(v: Version)
    ensures var h := Head(v);
      && h[0..4] == I32Le(v.protocolVersion)
      && h[4..12] == U64Le(v.services)
      && h[12..20] == I64Le(v.timestamp)
      && h[20..28] == U64Le(v.receiverServices)
      && h[28..46] == AddressBytes(v.receiverAddress)
      && h[46..54] == U64Le(v.senderServices)
      && h[54..72] == AddressBytes(v.senderAddress)
      && h[72..80] == U64Le(v.nonce)
  {
  }

  /** Where the variable fields land after the nonce. */
  lemma TrailerLayout(v: Version)
    requires |v.userAgent| <= 255
    ensures var t, n := Trailer(v), |v.userAgent|;
      && t[0] == n
      && t[1..1 + n] == v.userAgent
      && t[1 + n..5 + n] == I32Le(v.startHeight)
      && t[5 + n] == RelayByte(v.relay)
  {
  }

  /** With the builder's default user agent the payload is exactly
      `Version::SIZE` bytes. */
  lemma DefaultSize(receiver: SocketAddr, sender: SocketAddr, now: i64, nonce: u64)
    ensures Encode(Build(receiver, sender, now, nonce)).Ok?
    ensures |Encode(Build(receiver, sender, now, nonce)).value| == SIZE
  {
  }

  /** The trailer decoder reads exactly what it needs: bytes after the relay
      flag are never looked at. */
  lemma DecodeTrailerIgnoresTrailing(t: seq<byte>, extra: seq<byte>)
    requires DecodeTrailer(t).Ok?
    ensures DecodeTrailer(t + extra) == DecodeTrailer(t)
  {
    var n := t[0] as int;
    SliceOfPrefix(t, extra, 1, 1 + n);
    SliceOfPrefix(t, extra, 1 + n, 5 + n);
  }

  /** The slices holding the fixed fields do not change when bytes are
      appended. */
  lemma FixedFieldsOfPrefix(a: seq<byte>, b: seq<byte>)
    requires |a| >= 80
    ensures var c := a + b;
      && c[0..4] == a[0..4] && c[4..12] == a[4..12] && c[12..20] == a[12..20]
      && c[20..28] == a[20..28] && c[28..46] == a[28..46] && c[46..54] == a[46..54]
      && c[54..72] == a[54..72] && c[72..80] == a[72..80]
  {
    SliceOfPrefix(a, b, 0, 4);
    SliceOfPrefix(a, b, 4, 12);
    SliceOfPrefix(a, b, 12, 20);
    SliceOfPrefix(a, b, 20, 28);
    SliceOfPrefix(a, b, 28, 46);
    SliceOfPrefix(a, b, 46, 54);
    SliceOfPrefix(a, b, 54, 72);
    SliceOfPrefix(a, b, 72, 80);
  }

  /** Bytes after the relay flag are never read. */
  lemma DecodeIgnoresTrailing(data: seq<byte>, extra: seq<byte>)
    requires Decode(data).Ok?
    ensures Decode(data + extra) == Decode(data)
  {
    var d := data + extra;
    assert d[80..] == data[80..] + extra;
    DecodeTrailerIgnoresTrailing(data[80..], extra);
    AssembleOfPrefix(data, extra, DecodeTrailer(data[80..]).value);
  }

  lemma AssembleOfPrefix(a: seq<byte>, b: seq<byte>, t: (Utf8, i32, bool))
    requires |a| >= 80
    ensures Assemble(a + b, t) == Assemble(a, t)
  {
    FixedFieldsOfPrefix(a, b);
  }

  /** A user agent that is not UTF-8 is rejected, whatever follows it. */
  lemma DecodeRejectsBadUserAgent(data: seq<byte>)
    requires |data| >= 81 && |data| >= 81 + data[80] as int
    requires !ValidUtf8(data[81..81 + data[80]])
    ensures Decode(data) == Err(FailedToParseUserAgent)
  {
    var t := data[80..];
    assert t[1..1 + t[0]] == data[81..81 + data[80]];
    DecodeTrailerRejectsBadUserAgent(t);
  }

  lemma DecodeTrailerRejectsBadUserAgent(t: seq<byte>)
    requires |t| >= 1 && |t| >= 1 + t[0] as int
    requires !ValidUtf8(t[1..1 + t[0]])
    ensures DecodeTrailer(t) == Err(FailedToParseUserAgent)
  {
  }

  /** The relay flag is true exactly when its byte is nonzero. */
  lemma DecodeRelay(data: seq<byte>)
    requires Decode(data).Ok?
    ensures |data| > 85 + data[80] as int
    ensures Decode(data).value.relay <==> data[85 + data[80]] != 0
  {
    var t := data[80..];
    assert t[5 + t[0]] == data[85 + data[80]];
  }

  lemma TrailerRoundTrip(v: Version)
    requires |v.userAgent| <= 255
    ensures DecodeTrailer(Trailer(v)) == Ok((v.userAgent, v.startHeight, v.relay))
  {
    TrailerLayout(v);
    FieldRoundTrips();
  }

  /** Round trip: a version whose user agent fits its length prefix and whose
      addresses are not IPv4-mapped IPv6 addresses decodes to itself. */
  lemma RoundTrip(v: Version)
    requires |v.userAgent| <= 255
    requires Canonical(v.receiverAddress) && Canonical(v.senderAddress)
    ensures Decode(Encode(v).value) == Ok(v)
  {
    var b := Encode(v).value;
    assert b[80..] == Trailer(v);
    TrailerRoundTrip(v);
    AssembleOfPrefix(Head(v), Trailer(v), (v.userAgent, v.startHeight, v.relay));
    HeadRoundTrip(v);
  }

  /** Every proper prefix of an encoding is too short: its decoding fails
      with an I/O error, never with a wrong version. */
  lemma DecodePrefix(v: Version, k: nat)
    requires |v.userAgent| <= 255
    requires k < |Encode(v).value|
    ensures Decode(Encode(v).value[..k]) == Err(IoError)
  {
    var b := Encode(v).value;
    if k >= 80 {
      TrailerLayout(v);
      var t := b[..k][80..];
      assert t == Trailer(v)[..k - 80];
      var n := |v.userAgent|;
      if 1 + n <= |t| {
        assert t[1..1 + n] == v.userAgent;
      }
    }
  }

  /** The fixed fields read back from the first 80 bytes. */
  lemma HeadRoundTrip(v: Version)
    requires Canonical(v.receiverAddress) && Canonical(v.senderAddress)
    ensures Assemble(Head(v), (v.userAgent, v.startHeight, v.relay)) == v
  {
    HeadLayout(v);
    FieldRoundTrips();
    AddressRoundTrip(v.receiverAddress);
    AddressRoundTrip(v.senderAddress);
  }
}
