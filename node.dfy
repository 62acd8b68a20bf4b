/** The frames a handshake driver sends, shared by the responder
    (`listener::send_version` / `send_verack`) and the initiator
    (`sender::version` / `verack`), which build them the same way. */
module Node {
  import opened Bytes
  import opened SerdeBitcoin
  import Bitcoin
  import MessageTypes
  import Versions
  import VerAcks

  /** What a driver knows besides the bytes it reads: the hash function,
      the network flag, the local address of its socket (None when the
      operating system cannot report it), and the clock reading and random
      nonce the version builder draws. */
  datatype Env = Env(
    sha: Bitcoin.Hasher,
    testnet: bool,
    local: Option<Versions.SocketAddr>,
    now: i64,
    nonce: u64)

  /** The outcome of building a frame: its bytes, or why it could not be
      built. */
  datatype Frame = Built(bytes: seq<byte>) | NoLocalAddress | BuildFailed(error: SerdeBitcoinError)

  /** The version message sent to a peer: the builder defaults, the peer as
      receiver and the local address as sender. */
  function VersionMessage(env: Env, peer: Versions.SocketAddr): (m: Bitcoin.Message)
    requires env.local.Some?
    ensures m.ty == MessageTypes.Version && m.payload.Version?
    ensures m.payload.version.receiverAddress == peer
    ensures m.payload.version.senderAddress == env.local.value
    ensures m.magicBytes == (if env.testnet then Bitcoin.MAGIC_BYTES_TESTNET else Bitcoin.MAGIC_BYTES_MAINNET)
  {
    var v := Versions.Build(peer, env.local.value, env.now, env.nonce);
    Bitcoin.Build(Bitcoin.Payload.Version(v), MessageTypes.Version, env.testnet)
  }

  function VerAckMessage(env: Env): (m: Bitcoin.Message)
    ensures m.ty == MessageTypes.VerAck && m.payload.VerAck?
    ensures m.magicBytes == (if env.testnet then Bitcoin.MAGIC_BYTES_TESTNET else Bitcoin.MAGIC_BYTES_MAINNET)
  {
    Bitcoin.Build(Bitcoin.Payload.VerAck(VerAcks.VerAck), MessageTypes.VerAck, env.testnet)
  }

  function FrameOf(r: Result<seq<byte>>): Frame {
    match r
    case Ok(b) => Built(b)
    case Err(e) => BuildFailed(e)
  }

  /** The version frame: the local address is asked for first, then the
      message is serialized. */
  function VersionFrame(env: Env, peer: Versions.SocketAddr): (f: Frame)
    ensures f == NoLocalAddress <==> env.local.None?
  {
    if env.local.None? then NoLocalAddress
    else FrameOf(Bitcoin.Encode(env.sha, VersionMessage(env, peer)))
  }

  function VerAckFrame(env: Env): (f: Frame)
    ensures f != NoLocalAddress
  {
    FrameOf(Bitcoin.Encode(env.sha, VerAckMessage(env)))
  }

  /** The two frames a driver may send one peer. `send_version` and
      `send_verack` (and the initiator's `version` and `verack`) build them
      afresh on each call; with the clock reading and nonce fixed by the
      environment they are the same every time. */
  datatype Frames = Frames(version: Frame, verack: Frame)

  function FramesFor(env: Env, peer: Versions.SocketAddr): (r: Frames)
    ensures r.version == VersionFrame(env, peer) && r.verack == VerAckFrame(env)
  {
    Frames(VersionFrame(env, peer), VerAckFrame(env))
  }

  /** `send_version` up to the write: builds and serializes the message. */
  method BuildVersionFrame(env: Env, peer: Versions.SocketAddr) returns (f: Frame)
    ensures f == VersionFrame(env, peer)
  {
    if env.local.None? {
      return NoLocalAddress;
    }
    var v := Versions.Build(peer, env.local.value, env.now, env.nonce);
    var message := Bitcoin.Build(Bitcoin.Payload.Version(v), MessageTypes.Version, env.testnet);
    var r := Bitcoin.Serialize(env.sha, message);
    f := FrameOf(r);
  }

  /** `send_verack` up to the write. */
  method BuildVerAckFrame(env: Env) returns (f: Frame)
    ensures f == VerAckFrame(env)
  {
    var message := Bitcoin.Build(Bitcoin.Payload.VerAck(VerAcks.VerAck), MessageTypes.VerAck, env.testnet);
    var r := Bitcoin.Serialize(env.sha, message);
    f := FrameOf(r);
  }

  /** With a local address the version frame is always built: the
      `BuildMessage` error cannot occur. */
  lemma VersionFrameBuilt(env: Env, peer: Versions.SocketAddr)
    requires env.local.Some?
    ensures VersionFrame(env, peer).Built?
  {
    Versions.DefaultSize(peer, env.local.value, env.now, env.nonce);
  }

  /** With a local address the version frame is always built (the
      `BuildMessage` error cannot occur), it is 124 bytes long, and the peer
      decodes it back to the message, which names the peer as receiver and
      the local address as sender. */
  lemma VersionFrameDecodes(env: Env, peer: Versions.SocketAddr)
    requires env.local.Some?
    requires Versions.Canonical(peer) && Versions.Canonical(env.local.value)
    ensures VersionFrame(env, peer).Built?
    ensures |VersionFrame(env, peer).bytes| == Bitcoin.BASE_SIZE + Versions.SIZE
    ensures Bitcoin.Decode(env.sha, VersionFrame(env, peer).bytes) == Ok(VersionMessage(env, peer))
  {
    var m := VersionMessage(env, peer);
    Versions.DefaultSize(peer, env.local.value, env.now, env.nonce);
    Bitcoin.RoundTrip(env.sha, m);
  }

  /** The bytes of the version frame, which is always built once there is
      a local address. */
  function VersionBytes(env: Env, peer: Versions.SocketAddr): (b: seq<byte>)
    requires env.local.Some?
    ensures VersionFrame(env, peer) == Built(b)
  {
    VersionFrameBuilt(env, peer);
    VersionFrame(env, peer).bytes
  }

  /** The bytes of the verack frame, which is always built. */
  function VerAckBytes(env: Env): (b: seq<byte>)
    ensures VerAckFrame(env) == Built(b)
  {
    VerAckFrameDecodes(env);
    VerAckFrame(env).bytes
  }

  /** The verack frame is always built, is a bare 24-byte header, and
      decodes back to the verack message. */
  lemma VerAckFrameDecodes(env: Env)
    ensures VerAckFrame(env).Built?
    ensures |VerAckFrame(env).bytes| == Bitcoin.BASE_SIZE
    ensures Bitcoin.Decode(env.sha, VerAckFrame(env).bytes) == Ok(VerAckMessage(env))
  {
    Bitcoin.VerAckFrame(env.sha, env.testnet);
    Bitcoin.RoundTrip(env.sha, VerAckMessage(env));
  }
}
