/** The message envelope of the Bitcoin P2P protocol: a 24-byte header
    (network magic, command name, payload length, checksum) followed by the
    payload, whose decoder is chosen by the command name. */
module Bitcoin {
  import opened Bytes
  import opened SerdeBitcoin
  import opened Io
  import MessageTypes
  import Versions
  import VerAcks

  const MAGIC_BYTES_MAINNET: seq<byte> := [0xf9, 0xbe, 0xb4, 0xd9]
  const MAGIC_BYTES_TESTNET: seq<byte> := [0x0b, 0x11, 0x09, 0x07]
  const MAGIC_BYTES_LENGTH: nat := 4
  const CHECKSUM_LENGTH: nat := 4

  /** `Message::BASE_SIZE`: the header length. */
  const BASE_SIZE: nat := 24

  type Magic = s: seq<byte> | |s| == MAGIC_BYTES_LENGTH witness [0, 0, 0, 0]

  /** A SHA-256 digest. */
  type Digest = s: seq<byte> | |s| == 32 witness seq(32, _ => 0)

  /** SHA-256 is not modelled: every operation that hashes takes the hash
      function as a parameter, so every property proved holds for any
      function from byte strings to 32-byte digests. */
  type Hasher = seq<byte> -> Digest

  datatype Payload = Version(version: Versions.Version) | VerAck(verack: VerAcks.VerAck)

  /** A message: the command name `ty` is a field of its own and is not tied
      to the payload variant. */
  datatype Message = Message(magicBytes: Magic, ty: MessageTypes.MessageType, payload: Payload)

  /** `Message::build`: the testnet magic when the flag is set, the mainnet
      magic otherwise. */
  function Build(payload: Payload, ty: MessageTypes.MessageType, testnet: bool): (m: Message)
    ensures m.payload == payload && m.ty == ty
    ensures m.magicBytes == MAGIC_BYTES_TESTNET <==> testnet
    ensures m.magicBytes == MAGIC_BYTES_MAINNET <==> !testnet
  {
    var magicBytes := if testnet then MAGIC_BYTES_TESTNET else MAGIC_BYTES_MAINNET;
    Message(magicBytes, ty, payload)
  }

  /** `Message::build_checksum`: the first four bytes of the double hash. */
  function Checksum(sha: Hasher, payload: seq<byte>): (c: seq<byte>)
    ensures |c| == CHECKSUM_LENGTH
  {
    sha(sha(payload))[..CHECKSUM_LENGTH]
  }

  // ---------------------------------------------------------------------
  // Serialization.

  /** `Payload::serialize`, in terms of the payload encoders. */
  function EncodePayload(p: Payload): (r: Result<seq<byte>>)
  {
    match p
    case Version(v) => Versions.Encode(v)
    case VerAck(a) => VerAcks.Serialize(a)
  }

  /** `Payload::serialize`: dispatches on the variant. */
  method SerializePayload(p: Payload) returns (r: Result<seq<byte>>)
    ensures r == EncodePayload(p)
  {
    match p
    case Version(v) =>
      r := Versions.Serialize(v);
    case VerAck(a) =>
      r := VerAcks.Serialize(a);
  }

  /** The bytes of a frame around payload bytes pb. */
  function Frame(sha: Hasher, magic: Magic, ty: MessageTypes.MessageType, pb: seq<byte>): (r: seq<byte>)
    requires |pb| < 0x1_0000_0000
    ensures |r| == BASE_SIZE + |pb|
  {
    magic + MessageTypes.Field(ty) + U32Le(|pb|) + Checksum(sha, pb) + pb
  }

  /** The encoding of a message: the payload's encoding behind the header, or
      the payload encoder's error, or `InvalidPayloadLength` when the payload
      length does not fit the 32-bit length field. */
  function Encode(sha: Hasher, m: Message): (r: Result<seq<byte>>)
    ensures EncodePayload(m.payload).Err? ==> r == Err(EncodePayload(m.payload).error)
    ensures EncodePayload(m.payload).Ok? && |EncodePayload(m.payload).value| >= 0x1_0000_0000 ==>
              r == Err(InvalidPayloadLength)
    ensures r.Ok? ==> |r.value| == BASE_SIZE + |EncodePayload(m.payload).value|
  {
    match EncodePayload(m.payload)
    case Err(e) => Err(e)
    case Ok(pb) =>
      if |pb| >= 0x1_0000_0000 then Err(InvalidPayloadLength)
      else Ok(Frame(sha, m.magicBytes, m.ty, pb))
  }

  /** `Message::serialize`: the payload first, then the header fields and
      the payload appended in wire order. */
  method Serialize(sha: Hasher, m: Message) returns (r: Result<seq<byte>>)
    ensures r == Encode(sha, m)
  {
    var payloadBytes :- SerializePayload(m.payload);
    if |payloadBytes| >= 0x1_0000_0000 {
      return Err(InvalidPayloadLength);
    }
    var payloadLength: u32 := |payloadBytes|;

    var result: seq<byte> := [];
    result := result + m.magicBytes;
    var messageType := MessageTypes.Serialize(m.ty);
    match messageType {
      case Err(e) =>
        return Err(e);
      case Ok(field) =>
        assert field == MessageTypes.Field(m.ty);
        result := result + field;
    }
    result := result + U32Le(payloadLength);
    result := result + Checksum(sha, payloadBytes);
    result := result + payloadBytes;
    FrameFromEmpty(sha, m.magicBytes, m.ty, payloadBytes);
    return Ok(result);
  }

  /** The frame, appended field by field to an empty buffer. */
  lemma FrameFromEmpty(sha: Hasher, magic: Magic, ty: MessageTypes.MessageType, pb: seq<byte>)
    requires |pb| < 0x1_0000_0000
    ensures [] + magic + MessageTypes.Field(ty) + U32Le(|pb|) + Checksum(sha, pb) + pb == Frame(sha, magic, ty, pb)
  {
    assert [] + magic == magic;
  }

  // ---------------------------------------------------------------------
  // Deserialization.

  /** The payload decoder the command name selects. Only `version` and
      `verack` have one; any other known name is rejected by its name. */
  function DecodePayload(ty: MessageTypes.MessageType, pb: seq<byte>): (r: Result<Payload>)
  {
    if ty.Version? then
      match Versions.Decode(pb)
      case Ok(v) => Ok(Payload.Version(v))
      case Err(e) => Err(e)
    else if ty.VerAck? then
      match VerAcks.Deserialize(pb)
      case Ok(a) => Ok(Payload.VerAck(a))
      case Err(e) => Err(e)
    else Err(UnknownType(MessageTypes.NameBytes(ty)))
  }

  /** The payload dispatch of `Message::deserialize`. */
  method DeserializePayload(ty: MessageTypes.MessageType, pb: seq<byte>) returns (r: Result<Payload>)
    ensures r == DecodePayload(ty, pb)
  {
    if ty.Version? {
      var version :- Versions.Deserialize(pb);
      return Ok(Payload.Version(version));
    } else if ty.VerAck? {
      match VerAcks.Deserialize(pb)
      case Err(e) =>
        return Err(e);
      case Ok(verack) =>
        return Ok(Payload.VerAck(verack));
    } else {
      return Err(UnknownType(MessageTypes.NameBytes(ty)));
    }
  }

  /** What follows a well-formed header: the payload of the declared length,
      which must match the checksum before it is decoded. */
  function DecodeBody(sha: Hasher, magic: Magic, ty: MessageTypes.MessageType, body: seq<byte>): (r: Result<Message>)
  {
    if |body| < 8 then Err(IoError)
    else
      var len := ReadU32Le(body[..4]);
      if |body| < 8 + len then Err(IoError)
      else DecodeChecked(sha, magic, ty, body[4..8], body[8..8 + len])
  }

  /** The end of `Message::deserialize`, once the checksum `c` and the
      payload bytes are read. */
  function DecodeChecked(sha: Hasher, magic: Magic, ty: MessageTypes.MessageType, c: seq<byte>, pb: seq<byte>): (r: Result<Message>)
  {
    if Checksum(sha, pb) != c then Err(InvalidChecksum)
    else match DecodePayload(ty, pb)
      case Err(e) => Err(e)
      case Ok(p) => Ok(Message(magic, ty, p))
  }

  /** The decoding of a frame: the magic is taken as it is, the command name
      is decoded, then the rest of the header and the payload. */
  function Decode(sha: Hasher, data: seq<byte>): (r: Result<Message>)
    ensures r.Ok? ==> |data| >= BASE_SIZE && r.value.magicBytes == data[..4]
  {
    if |data| < 16 then Err(IoError)
    else match MessageTypes.Deserialize(data[4..16])
      case Err(e) => Err(e)
      case Ok(ty) => DecodeBody(sha, data[..4], ty, data[16..])
  }

  /** `Message::deserialize`: reads the header through a cursor, checks the
      checksum, then hands the payload bytes to the selected decoder. */
  method Deserialize(sha: Hasher, data: seq<byte>) returns (r: Result<Message>)
    ensures r == Decode(sha, data)
  {
    var cursor := new Cursor(data);
    var magicBytes :- cursor.ReadExact(MAGIC_BYTES_LENGTH);
    var messageTypeBytes :- cursor.ReadExact(12);
    var messageType :- MessageTypes.Deserialize(messageTypeBytes);
    assert cursor.pos == 16;
    r := DeserializeBody(sha, cursor, magicBytes, messageType);
    assert data[16..] == cursor.data[16..];
  }

  /** The part of `Message::deserialize` after the command name. */
  method DeserializeBody(sha: Hasher, cursor: Cursor, magicBytes: Magic, messageType: MessageTypes.MessageType)
    returns (r: Result<Message>)
    requires cursor.pos <= |cursor.data|
    modifies cursor
    ensures r == DecodeBody(sha, magicBytes, messageType, cursor.data[old(cursor.pos)..])
  {
    DecodeBodyAt(sha, magicBytes, messageType, cursor.data, cursor.pos);
    ghost var p := cursor.pos;
    var payloadLength :- cursor.ReadU32Le();
    assert cursor.pos == p + 4;
    var checksum :- cursor.ReadExact(CHECKSUM_LENGTH);
    assert cursor.pos == p + 8;
    // usize::try_from(u32) cannot fail where usize has at least 32 bits.
    var payloadBytes :- cursor.ReadExact(payloadLength);

    r := Check(sha, magicBytes, messageType, checksum, payloadBytes);
  }

  /** The body decoder on the bytes from position p on, stated in terms of
      the whole input. */
  lemma DecodeBodyAt(sha: Hasher, magic: Magic, ty: MessageTypes.MessageType, d: seq<byte>, p: nat)
    requires p <= |d|
    ensures p + 8 > |d| ==> DecodeBody(sha, magic, ty, d[p..]) == Err(IoError)
    ensures p + 8 <= |d| ==>
      var len := ReadU32Le(d[p..p + 4]);
      && (p + 8 + len > |d| ==> DecodeBody(sha, magic, ty, d[p..]) == Err(IoError))
      && (p + 8 + len <= |d| ==>
            DecodeBody(sha, magic, ty, d[p..]) == DecodeChecked(sha, magic, ty, d[p + 4..p + 8], d[p + 8..p + 8 + len]))
  {
    var body := d[p..];
    if p + 8 <= |d| {
      SliceOfSuffix(d, p, 0, 4);
      assert body[..4] == d[p..p + 4];
      var len := ReadU32Le(d[p..p + 4]);
      if p + 8 + len <= |d| {
        SliceOfSuffix(d, p, 4, 8);
        SliceOfSuffix(d, p, 8, 8 + len as int);
        assert DecodeBody(sha, magic, ty, body) == DecodeChecked(sha, magic, ty, body[4..8], body[8..8 + len]);
      }
    }
  }

  /** The checksum test and the payload decoder of `Message::deserialize`. */
  method Check(sha: Hasher, magicBytes: Magic, messageType: MessageTypes.MessageType, checksum: seq<byte>, payloadBytes: seq<byte>)
    returns (r: Result<Message>)
    ensures r == DecodeChecked(sha, magicBytes, messageType, checksum, payloadBytes)
  {
    if Checksum(sha, payloadBytes) != checksum {
      return Err(InvalidChecksum);
    }

    var payload :- DeserializePayload(messageType, payloadBytes);
    return Ok(Message(magicBytes, messageType, payload));
  }

  // ---------------------------------------------------------------------
  // Properties of the envelope.

  /** The layout of a frame: magic, command field, little-endian length,
      checksum, payload. */
  lemma FrameLayout(sha: Hasher, magic: Magic, ty: MessageTypes.MessageType, pb: seq<byte>)
    requires |pb| < 0x1_0000_0000
    ensures var f := Frame(sha, magic, ty, pb);
      && f[..4] == magic
      && f[4..16] == MessageTypes.Field(ty)
      && ReadU32Le(f[16..20]) == |pb|
      && f[20..24] == Checksum(sha, pb)
      && f[24..] == pb
  {
    FieldRoundTrips();
    var f := Frame(sha, magic, ty, pb);
    assert f[16..20] == U32Le(|pb|);
  }

  /** A message serializes exactly when its payload does: the 32-bit length
      check never fires, since no payload the crate builds comes near 2^32
      bytes, and the only error is a `version` user agent longer than 255
      bytes. */
  lemma EncodeErrors(sha: Hasher, m: Message)
    ensures Encode(sha, m).Err? <==> m.payload.Version? && |m.payload.version.userAgent| > 255
    ensures Encode(sha, m).Err? ==> Encode(sha, m).error == InvalidUserAgentLength
    ensures Encode(sha, m) != Err(InvalidPayloadLength)
  {
  }

  /** Decoding a frame whose command field is that of a known type: the
      command is decoded and the rest of the bytes go to the body decoder. */
  lemma DecodeKnownCommand(sha: Hasher, magic: Magic, ty: MessageTypes.MessageType, rest: seq<byte>)
    ensures Decode(sha, magic + MessageTypes.Field(ty) + rest) == DecodeBody(sha, magic, ty, rest)
  {
    MessageTypes.RoundTrip(ty);
    var d := magic + MessageTypes.Field(ty) + rest;
    assert d[..4] == magic;
    assert d[4..16] == MessageTypes.Field(ty);
    assert d[16..] == rest;
  }

  /** The body decoder on a length field, a checksum field c and the
      payload: a wrong checksum is rejected whatever the command, otherwise
      the command selects the payload decoder. */
  lemma DecodeBodyThen(sha: Hasher, magic: Magic, ty: MessageTypes.MessageType, c: seq<byte>, pb: seq<byte>)
    requires |pb| < 0x1_0000_0000 && |c| == CHECKSUM_LENGTH
    ensures var body := U32Le(|pb|) + c + pb;
      && (c != Checksum(sha, pb) ==> DecodeBody(sha, magic, ty, body) == Err(InvalidChecksum))
      && (c == Checksum(sha, pb) ==>
            DecodeBody(sha, magic, ty, body) == match DecodePayload(ty, pb)
                                                case Err(e) => Err(e)
                                                case Ok(p) => Ok(Message(magic, ty, p)))
  {
    FieldRoundTrips();
    var body := U32Le(|pb|) + c + pb;
    assert body[..4] == U32Le(|pb|);
    assert body[4..8] == c;
    assert body[8..8 + |pb|] == pb;
  }

  lemma FrameParts(sha: Hasher, magic: Magic, ty: MessageTypes.MessageType, c: seq<byte>, pb: seq<byte>)
    requires |pb| < 0x1_0000_0000
    ensures magic + MessageTypes.Field(ty) + U32Le(|pb|) + c + pb
            == magic + MessageTypes.Field(ty) + (U32Le(|pb|) + c + pb)
  {
  }

  /** A frame decodes to its own magic and command and to whatever the
      selected payload decoder makes of the payload. */
  lemma DecodeFrame(sha: Hasher, magic: Magic, ty: MessageTypes.MessageType, pb: seq<byte>)
    requires |pb| < 0x1_0000_0000
    ensures Decode(sha, Frame(sha, magic, ty, pb)) ==
              match DecodePayload(ty, pb)
              case Err(e) => Err(e)
              case Ok(p) => Ok(Message(magic, ty, p))
  {
    var c := Checksum(sha, pb);
    FrameParts(sha, magic, ty, c, pb);
    DecodeKnownCommand(sha, magic, ty, U32Le(|pb|) + c + pb);
    DecodeBodyThen(sha, magic, ty, c, pb);
  }

  /** Any checksum field other than the payload's checksum is rejected,
      before the payload is looked at. */
  lemma DecodeBadChecksum(sha: Hasher, magic: Magic, ty: MessageTypes.MessageType, c: seq<byte>, pb: seq<byte>)
    requires |pb| < 0x1_0000_0000 && |c| == CHECKSUM_LENGTH && c != Checksum(sha, pb)
    ensures Decode(sha, magic + MessageTypes.Field(ty) + U32Le(|pb|) + c + pb) == Err(InvalidChecksum)
  {
    FrameParts(sha, magic, ty, c, pb);
    DecodeKnownCommand(sha, magic, ty, U32Le(|pb|) + c + pb);
    DecodeBodyThen(sha, magic, ty, c, pb);
  }

  /** A well-framed message under any command other than `version` and
      `verack` is rejected with that command's name, whatever its payload. */
  lemma DecodeUnknownCommand(sha: Hasher, magic: Magic, ty: MessageTypes.MessageType, pb: seq<byte>)
    requires |pb| < 0x1_0000_0000 && !ty.Version? && !ty.VerAck?
    ensures Decode(sha, Frame(sha, magic, ty, pb)) == Err(UnknownType(MessageTypes.NameBytes(ty)))
  {
    DecodeFrame(sha, magic, ty, pb);
  }

  /** The body decoder fails with an I/O error on a body shorter than its
      length field says. */
  lemma DecodeBodyTruncated(sha: Hasher, magic: Magic, ty: MessageTypes.MessageType, body: seq<byte>, n: u32)
    requires |body| < 8 + n
    requires |body| >= 4 ==> body[..4] == U32Le(n)
    ensures DecodeBody(sha, magic, ty, body) == Err(IoError)
  {
    FieldRoundTrips();
  }

  /** Every proper prefix of a frame fails with an I/O error. */
  lemma DecodeTruncated(sha: Hasher, magic: Magic, ty: MessageTypes.MessageType, pb: seq<byte>, k: nat)
    requires |pb| < 0x1_0000_0000 && k < BASE_SIZE + |pb|
    ensures Decode(sha, Frame(sha, magic, ty, pb)[..k]) == Err(IoError)
  {
    if k >= 16 {
      var rest := Frame(sha, magic, ty, pb)[16..k];
      FramePrefix(sha, magic, ty, pb, k);
      DecodeKnownCommand(sha, magic, ty, rest);
      DecodeBodyTruncated(sha, magic, ty, rest, |pb|);
    }
  }

  /** A prefix of a frame that holds the command field, cut after it. */
  lemma FramePrefix(sha: Hasher, magic: Magic, ty: MessageTypes.MessageType, pb: seq<byte>, k: nat)
    requires |pb| < 0x1_0000_0000 && 16 <= k <= BASE_SIZE + |pb|
    ensures var f := Frame(sha, magic, ty, pb);
      && f[..k] == magic + MessageTypes.Field(ty) + f[16..k]
      && (k >= 20 ==> f[16..k][..4] == U32Le(|pb|))
  {
    var f := Frame(sha, magic, ty, pb);
    assert f[..16] == magic + MessageTypes.Field(ty);
    assert f[..k] == f[..16] + f[16..k];
    if k >= 20 {
      assert f[16..k][..4] == f[16..20];
    }
  }

  /** Bytes after a decodable body are never read. */
  lemma DecodeBodyIgnoresTrailing(sha: Hasher, magic: Magic, ty: MessageTypes.MessageType, body: seq<byte>, extra: seq<byte>)
    requires DecodeBody(sha, magic, ty, body).Ok?
    ensures DecodeBody(sha, magic, ty, body + extra) == DecodeBody(sha, magic, ty, body)
  {
    var len: nat := ReadU32Le(body[..4]);
    SliceOfPrefix(body, extra, 0, 4);
    SliceOfPrefix(body, extra, 4, 8);
    SliceOfPrefix(body, extra, 8, 8 + len);
  }

  /** Bytes after a decodable frame are never read. */
  lemma DecodeIgnoresTrailing(sha: Hasher, data: seq<byte>, extra: seq<byte>)
    requires Decode(sha, data).Ok?
    ensures Decode(sha, data + extra) == Decode(sha, data)
  {
    DecodedHeader(sha, data);
    var ty := MessageTypes.Deserialize(data[4..16]).value;
    var d := data + extra;
    ExtendedSlices(data, extra);
    DecodeHeader(sha, d, ty);
    DecodeBodyIgnoresTrailing(sha, data[..4], ty, data[16..], extra);
  }

  lemma ExtendedSlices(data: seq<byte>, extra: seq<byte>)
    requires |data| >= 16
    ensures var d := data + extra;
      d[..4] == data[..4] && d[4..16] == data[4..16] && d[16..] == data[16..] + extra
  {
    SliceOfPrefix(data, extra, 0, 4);
    SliceOfPrefix(data, extra, 4, 16);
  }

  /** A frame that decodes has a command field that decodes. */
  lemma DecodedHeader(sha: Hasher, data: seq<byte>)
    requires Decode(sha, data).Ok?
    ensures |data| >= 16 && MessageTypes.Deserialize(data[4..16]).Ok?
    ensures Decode(sha, data) == DecodeBody(sha, data[..4], MessageTypes.Deserialize(data[4..16]).value, data[16..])
  {
  }

  /** Only `version` and `verack` messages ever decode, and a decoded
      message's payload is always the one its command names: every other
      command is rejected. */
  lemma DecodedKinds(sha: Hasher, data: seq<byte>)
    requires Decode(sha, data).Ok?
    ensures var m := Decode(sha, data).value;
      || (m.ty == MessageTypes.Version && m.payload.Version?)
      || (m.ty == MessageTypes.VerAck && m.payload.VerAck?)
  {
    DecodedHeader(sha, data);
  }

  /** Once the command field decodes, the rest is the body decoder's. */
  lemma DecodeHeader(sha: Hasher, data: seq<byte>, ty: MessageTypes.MessageType)
    requires |data| >= 16 && MessageTypes.Deserialize(data[4..16]) == Ok(ty)
    ensures Decode(sha, data) == DecodeBody(sha, data[..4], ty, data[16..])
  {
  }

  /** The body decoder copies the magic it is given into the message. */
  lemma DecodeBodyMagic(sha: Hasher, m1: Magic, m2: Magic, ty: MessageTypes.MessageType, body: seq<byte>)
    ensures DecodeBody(sha, m1, ty, body) ==
              match DecodeBody(sha, m2, ty, body)
              case Err(e) => Err(e)
              case Ok(m) => Ok(m.(magicBytes := m1))
  {
  }

  /** The magic is carried into the message without being checked: replacing
      the first four bytes of a frame changes nothing but the decoded magic. */
  lemma MagicNotChecked(sha: Hasher, data: seq<byte>, magic: Magic)
    requires |data| >= MAGIC_BYTES_LENGTH
    ensures Decode(sha, magic + data[4..]) ==
              match Decode(sha, data)
              case Err(e) => Err(e)
              case Ok(m) => Ok(m.(magicBytes := magic))
  {
    var d := magic + data[4..];
    if |data| >= 16 {
      assert d[4..16] == data[4..16];
      assert d[16..] == data[16..];
      var r := MessageTypes.Deserialize(data[4..16]);
      if r.Ok? {
        DecodeBodyMagic(sha, magic, data[..4], r.value, data[16..]);
      }
    }
  }

  /** The messages that survive a round trip: the command is the one of the
      payload variant, and a `version` payload itself round-trips. */
  predicate WellFormed(m: Message) {
    match m.payload
    case Version(v) =>
      && m.ty == MessageTypes.Version
      && |v.userAgent| <= 255
      && Versions.Canonical(v.receiverAddress)
      && Versions.Canonical(v.senderAddress)
    case VerAck(_) => m.ty == MessageTypes.VerAck
  }

  lemma RoundTrip(sha: Hasher, m: Message)
    requires WellFormed(m)
    ensures Encode(sha, m).Ok?
    ensures Decode(sha, Encode(sha, m).value) == Ok(m)
  {
    PayloadRoundTrip(m);
    var pb := EncodePayload(m.payload).value;
    EncodeErrors(sha, m);
    assert Encode(sha, m) == Ok(Frame(sha, m.magicBytes, m.ty, pb));
    DecodeFrame(sha, m.magicBytes, m.ty, pb);
  }

  /** The payload of a well-formed message comes back from the decoder its
      command selects. */
  lemma PayloadRoundTrip(m: Message)
    requires WellFormed(m)
    ensures EncodePayload(m.payload).Ok?
    ensures DecodePayload(m.ty, EncodePayload(m.payload).value) == Ok(m.payload)
  {
    match m.payload
    case Version(v) =>
      Versions.RoundTrip(v);
    case VerAck(a) =>
      assert a == VerAcks.VerAck;
  }

  /** The command, not the payload variant, selects the decoder: a `version`
      payload sent under `verack` comes back as a `verack`. */
  lemma CommandSelectsDecoder(sha: Hasher, magic: Magic, v: Versions.Version)
    requires |v.userAgent| <= 255
    ensures var m := Message(magic, MessageTypes.VerAck, Payload.Version(v));
      && Encode(sha, m).Ok?
      && Decode(sha, Encode(sha, m).value) == Ok(Message(magic, MessageTypes.VerAck, Payload.VerAck(VerAcks.VerAck)))
  {
    DecodeFrame(sha, magic, MessageTypes.VerAck, Versions.Encode(v).value);
  }

  /** A `verack` message is a bare 24-byte header with a zero length and the
      checksum of the empty payload. */
  lemma VerAckFrame(sha: Hasher, testnet: bool)
    ensures var m := Build(Payload.VerAck(VerAcks.VerAck), MessageTypes.VerAck, testnet);
      && Encode(sha, m) == Ok(m.magicBytes + MessageTypes.Field(MessageTypes.VerAck) + [0, 0, 0, 0] + Checksum(sha, []))
      && |Encode(sha, m).value| == BASE_SIZE
  {
    var m := Build(Payload.VerAck(VerAcks.VerAck), MessageTypes.VerAck, testnet);
    assert EncodePayload(m.payload) == Ok([]);
    assert U32Le(0) == [0, 0, 0, 0];
    assert Frame(sha, m.magicBytes, m.ty, []) == m.magicBytes + MessageTypes.Field(MessageTypes.VerAck) + [0, 0, 0, 0] + Checksum(sha, []);
  }

  /** The version test of the crate: a default version from 127.0.0.1:18334
      to 127.0.0.1:18333 on testnet comes back unchanged, whatever the clock
      reading and nonce. */
  lemma VersionMessageExample(sha: Hasher, now: i64, nonce: u64)
    ensures var receiver := Versions.SocketAddr(Versions.V4([127, 0, 0, 1]), 18333);
      var sender := Versions.SocketAddr(Versions.V4([127, 0, 0, 1]), 18334);
      var m := Build(Payload.Version(Versions.Build(receiver, sender, now, nonce)), MessageTypes.Version, true);
      && Encode(sha, m).Ok?
      && |Encode(sha, m).value| == BASE_SIZE + Versions.SIZE
      && Decode(sha, Encode(sha, m).value) == Ok(m)
  {
    var receiver := Versions.SocketAddr(Versions.V4([127, 0, 0, 1]), 18333);
    var sender := Versions.SocketAddr(Versions.V4([127, 0, 0, 1]), 18334);
    var m := Build(Payload.Version(Versions.Build(receiver, sender, now, nonce)), MessageTypes.Version, true);
    Versions.DefaultSize(receiver, sender, now, nonce);
    RoundTrip(sha, m);
  }

  /** The verack test of the crate. */
  lemma VerAckMessageExample(sha: Hasher)
    ensures var m := Build(Payload.VerAck(VerAcks.VerAck), MessageTypes.VerAck, true);
      Encode(sha, m).Ok? && Decode(sha, Encode(sha, m).value) == Ok(m)
  {
    RoundTrip(sha, Build(Payload.VerAck(VerAcks.VerAck), MessageTypes.VerAck, true));
  }
}
