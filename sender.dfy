/** The initiator side of the handshake (`sender::run`): connect to a target,
    send a version frame and expect a version reply, then send a verack frame
    and expect a verack reply. Each phase is tried once.

    The socket is replaced by the outcome of the connect and the outcome of
    each phase's read; writes and flushes are taken to succeed. A phase that
    times out is one whose frame was written and whose reply did not come in
    time. */
module Sender {
  import opened Bytes
  import opened SerdeBitcoin
  import Bitcoin
  import MessageTypes
  import Versions
  import Node
  import Report

  type SocketAddr = Versions.SocketAddr

  /** The time limits of the three phases, in seconds. */
  const CONNECTION_TIMEOUT_SECS := 15
  const VERSION_TIMEOUT_SECS := 30
  const VERACK_TIMEOUT_SECS := 30

  /** What a completed handshake reports. */
  datatype ConnectionInfo = ConnectionInfo(addr: SocketAddr)

  /** The errors `run` can end with. `BuildVersionPayload` is not
      represented: every field of the builder has a default. `SendVersion`,
      `SendVerack` and `FailedToFlushStream` are not represented: writes and
      flushes succeed in this model. `TcpConnection` carries the target
      address rather than its text. */
  datatype Error =
    | TcpConnection(addr: SocketAddr)
    | LocalAddress
    | BuildMessage(error: SerdeBitcoinError)
    | FillBuffer
    | DeserializeVersionResponse(error: SerdeBitcoinError)
    | DeserializeVerackResponse(error: SerdeBitcoinError)
    | VersionTimeout
    | VerackTimeout
    | ConnectionTimeout
    /** The received type's name, then the expected type's name. */
    | ReceivedWrongMessageType(received: string, expected: string)

  /** The text of each error, as the `#[error]` attributes of the program's
      errors write it. The wrong-type format puts its first argument, the
      received type's name, after "Expected" (see `Report`).
      `TcpConnection`'s text is followed by the address as text, whose
      format is not part of this model. */
  function Describe(e: Error): (text: string)
    ensures e.TcpConnection? ==> text == Report.CONNECT
    ensures e.LocalAddress? ==> text == Report.LOCAL_ADDRESS
    ensures e.BuildMessage? ==> text == Report.BUILD_MESSAGE
    ensures e.FillBuffer? ==> text == Report.FILL_BUFFER
    ensures e.DeserializeVersionResponse? ==> text == Report.DESERIALIZE_VERSION
    ensures e.DeserializeVerackResponse? ==> text == Report.DESERIALIZE_VERACK
    ensures e.VersionTimeout? ==> text == Report.VERSION_TIMEOUT
    ensures e.VerackTimeout? ==> text == Report.VERACK_TIMEOUT
    ensures e.ConnectionTimeout? ==> text == Report.CONNECTION_TIMEOUT
    ensures e.ReceivedWrongMessageType? ==> text == Report.WrongTypeTextAsWritten(e.received, e.expected)
  {
    match e
    case TcpConnection(_) => Report.CONNECT
    case LocalAddress => Report.LOCAL_ADDRESS
    case BuildMessage(_) => Report.BUILD_MESSAGE
    case FillBuffer => Report.FILL_BUFFER
    case DeserializeVersionResponse(_) => Report.DESERIALIZE_VERSION
    case DeserializeVerackResponse(_) => Report.DESERIALIZE_VERACK
    case VersionTimeout => Report.VERSION_TIMEOUT
    case VerackTimeout => Report.VERACK_TIMEOUT
    case ConnectionTimeout => Report.CONNECTION_TIMEOUT
    case ReceivedWrongMessageType(received, expected) => Report.WrongTypeTextAsWritten(received, expected)
  }

  /** The text tells the kinds of error apart: two errors with the same text
      are of the same kind. */
  lemma DescribeTellsKindsApart(a: Error, b: Error)
    requires Describe(a) == Describe(b)
    ensures a.TcpConnection? == b.TcpConnection? && a.LocalAddress? == b.LocalAddress?
    ensures a.BuildMessage? == b.BuildMessage? && a.FillBuffer? == b.FillBuffer?
    ensures a.DeserializeVersionResponse? == b.DeserializeVersionResponse?
    ensures a.DeserializeVerackResponse? == b.DeserializeVerackResponse?
    ensures a.VersionTimeout? == b.VersionTimeout? && a.VerackTimeout? == b.VerackTimeout?
    ensures a.ConnectionTimeout? == b.ConnectionTimeout? && a.ReceivedWrongMessageType? == b.ReceivedWrongMessageType?
  {
    DescribeShape(a);
    DescribeShape(b);
  }

  /** The length and the last character of each fixed text, which tell the
      fixed texts apart. */
  function Shape(e: Error): (int, char) {
    match e
    case TcpConnection(_) => (21, ' ')
    case LocalAddress => (33, 's')
    case BuildMessage(_) => (35, 'e')
    case FillBuffer => (21, 'r')
    case DeserializeVersionResponse(_) => (50, 'e')
    case DeserializeVerackResponse(_) => (49, 'e')
    case VersionTimeout => (15, 't')
    case VerackTimeout => (14, 't')
    case ConnectionTimeout => (18, 't')
    case ReceivedWrongMessageType(_, _) => (0, 'R')
  }

  /** Only the wrong-type text has a 'g' at index 20 (from "message"); each
      fixed text has the shape `Shape` gives it. */
  lemma DescribeShape(e: Error)
    ensures e.ReceivedWrongMessageType? <==> |Describe(e)| > 20 && Describe(e)[20] == 'g'
    ensures !e.ReceivedWrongMessageType? ==> (|Describe(e)|, Describe(e)[|Describe(e)| - 1]) == Shape(e)
  {
    match e
    case ReceivedWrongMessageType(received, expected) =>
      Report.AsWrittenStartsWithPrefix(received, expected);
      assert Describe(e)[20] == Report.PREFIX[20] == 'g';
    case TcpConnection(_) => assert Describe(e) == Report.CONNECT;
    case LocalAddress => assert Describe(e) == Report.LOCAL_ADDRESS;
    case BuildMessage(_) => assert Describe(e) == Report.BUILD_MESSAGE;
    case FillBuffer => assert Describe(e) == Report.FILL_BUFFER;
    case DeserializeVersionResponse(_) => assert Describe(e) == Report.DESERIALIZE_VERSION;
    case DeserializeVerackResponse(_) => assert Describe(e) == Report.DESERIALIZE_VERACK;
    case VersionTimeout => assert Describe(e) == Report.VERSION_TIMEOUT;
    case VerackTimeout => assert Describe(e) == Report.VERACK_TIMEOUT;
    case ConnectionTimeout => assert Describe(e) == Report.CONNECTION_TIMEOUT;
  }

  /** How `TcpStream::connect` under its time limit ends. */
  datatype Connect = Established | ConnectTimedOut | ConnectRefused

  /** How the read of a phase ends: the buffer `fill_buf` returned, a failed
      read, or the phase's time limit passing first. */
  datatype Reply = Received(bytes: seq<byte>) | ReadFailed | TimedOut

  /** What the read of a phase gives: no reply in time, a failed read, a
      buffer that does not decode, or a message. */
  datatype Heard = Late | Lost | Garbled(error: SerdeBitcoinError) | Got(msg: Bitcoin.Message)

  /** Reading and decoding a phase's reply. An empty buffer does not
      decode: the initiator has no end-of-stream case. */
  function Hear(sha: Bitcoin.Hasher, reply: Reply): (h: Heard)
    ensures h == Late <==> reply == TimedOut
    ensures h == Lost <==> reply == ReadFailed
    ensures h.Garbled? <==> reply.Received? && Bitcoin.Decode(sha, reply.bytes).Err?
    ensures h.Garbled? ==> h.error == Bitcoin.Decode(sha, reply.bytes).error
    ensures h.Got? <==> reply.Received? && Bitcoin.Decode(sha, reply.bytes).Ok?
    ensures h.Got? ==> h.msg == Bitcoin.Decode(sha, reply.bytes).value
  {
    match reply
    case TimedOut => Late
    case ReadFailed => Lost
    case Received(bytes) =>
      match Bitcoin.Decode(sha, bytes)
      case Err(e) => Garbled(e)
      case Ok(msg) => Got(msg)
  }

  /** The two phases, which differ only in their frame and their errors. */
  datatype Phase = VersionPhase | VerAckPhase

  /** A phase: the reply message and the frames written, or the error that
      ended it and the frames written before it. */
  datatype Exchanged = Answered(msg: Bitcoin.Message, sent: seq<seq<byte>>) | Aborted(error: Error, sent: seq<seq<byte>>)

  /** How `run` returns. */
  datatype Done = Success(info: ConnectionInfo) | Failure(error: Error)

  /** What a run returns, with every frame it wrote. */
  datatype Outcome = Outcome(done: Done, sent: seq<seq<byte>>)

  function TimeoutError(phase: Phase): Error {
    match phase
    case VersionPhase => VersionTimeout
    case VerAckPhase => VerackTimeout
  }

  function DecodeError(phase: Phase, e: SerdeBitcoinError): Error {
    match phase
    case VersionPhase => DeserializeVersionResponse(e)
    case VerAckPhase => DeserializeVerackResponse(e)
  }

  /** `timeout(.., version(..))` or `timeout(.., verack(..))`: the frame is
      built and written, then the reply is heard. */
  function Exchange(frame: Node.Frame, phase: Phase, heard: Heard): Exchanged {
    match frame
    case NoLocalAddress => Aborted(LocalAddress, [])
    case BuildFailed(e) => Aborted(BuildMessage(e), [])
    case Built(b) =>
      match heard
      case Late => Aborted(TimeoutError(phase), [b])
      case Lost => Aborted(FillBuffer, [b])
      case Garbled(e) => Aborted(DecodeError(phase, e), [b])
      case Got(msg) => Answered(msg, [b])
  }

  function WrongType(received: MessageTypes.MessageType, expected: MessageTypes.MessageType): Error {
    ReceivedWrongMessageType(MessageTypes.Name(received), MessageTypes.Name(expected))
  }

  /** The phases of `run` after the connect, with the frames given. */
  function Initiate(frames: Node.Frames, target: SocketAddr, first: Heard, second: Heard): Outcome {
    var v := Exchange(frames.version, VersionPhase, first);
    if v.Aborted? then Outcome(Failure(v.error), v.sent)
    else if v.msg.ty != MessageTypes.Version then Outcome(Failure(WrongType(v.msg.ty, MessageTypes.Version)), v.sent)
    else
      var a := Exchange(frames.verack, VerAckPhase, second);
      if a.Aborted? then Outcome(Failure(a.error), v.sent + a.sent)
      else if a.msg.ty != MessageTypes.VerAck then Outcome(Failure(WrongType(a.msg.ty, MessageTypes.VerAck)), v.sent + a.sent)
      else Outcome(Success(ConnectionInfo(target)), v.sent + a.sent)
  }

  /** `run`: connect, then the two phases. */
  function Handshake(env: Node.Env, target: SocketAddr, connect: Connect, first: Reply, second: Reply): Outcome {
    match connect
    case ConnectTimedOut => Outcome(Failure(ConnectionTimeout), [])
    case ConnectRefused => Outcome(Failure(TcpConnection(target)), [])
    case Established => Initiate(Node.FramesFor(env, target), target, Hear(env.sha, first), Hear(env.sha, second))
  }

  /** Reading and decoding the reply of a phase whose frame was written. */
  method Await(sha: Bitcoin.Hasher, frame: seq<byte>, phase: Phase, reply: Reply) returns (x: Exchanged)
    ensures x == Exchange(Node.Built(frame), phase, Hear(sha, reply))
  {
    if reply.TimedOut? {
      return Aborted(TimeoutError(phase), [frame]);
    }
    if reply.ReadFailed? {
      return Aborted(FillBuffer, [frame]);
    }
    var decoded := Bitcoin.Deserialize(sha, reply.bytes);
    match decoded {
      case Err(e) => x := Aborted(DecodeError(phase, e), [frame]);
      case Ok(msg) => x := Answered(msg, [frame]);
    }
  }

  /** `version`, under its time limit. */
  method Version(env: Node.Env, target: SocketAddr, reply: Reply) returns (x: Exchanged)
    ensures x == Exchange(Node.VersionFrame(env, target), VersionPhase, Hear(env.sha, reply))
  {
    var frame := Node.BuildVersionFrame(env, target);
    match frame {
      case NoLocalAddress => return Aborted(LocalAddress, []);
      case BuildFailed(e) => return Aborted(BuildMessage(e), []);
      case Built(b) => x := Await(env.sha, b, VersionPhase, reply);
    }
  }

  /** `verack`, under its time limit. */
  method VerAck(env: Node.Env, reply: Reply) returns (x: Exchanged)
    ensures x == Exchange(Node.VerAckFrame(env), VerAckPhase, Hear(env.sha, reply))
  {
    var frame := Node.BuildVerAckFrame(env);
    match frame {
      case NoLocalAddress => return Aborted(LocalAddress, []);
      case BuildFailed(e) => return Aborted(BuildMessage(e), []);
      case Built(b) => x := Await(env.sha, b, VerAckPhase, reply);
    }
  }

  /** `run`: returns its result and the frames it wrote. */
  method Run(env: Node.Env, target: SocketAddr, connect: Connect, first: Reply, second: Reply)
    returns (done: Done, sent: seq<seq<byte>>)
    ensures Outcome(done, sent) == Handshake(env, target, connect, first, second)
  {
    if connect.ConnectTimedOut? {
      return Failure(ConnectionTimeout), [];
    }
    if connect.ConnectRefused? {
      return Failure(TcpConnection(target)), [];
    }
    var v := Version(env, target, first);
    if v.Aborted? {
      return Failure(v.error), v.sent;
    }
    if v.msg.ty != MessageTypes.Version {
      return Failure(WrongType(v.msg.ty, MessageTypes.Version)), v.sent;
    }
    var a := VerAck(env, second);
    sent := v.sent + a.sent;
    if a.Aborted? {
      return Failure(a.error), sent;
    }
    if a.msg.ty != MessageTypes.VerAck {
      return Failure(WrongType(a.msg.ty, MessageTypes.VerAck)), sent;
    }
    done := Success(ConnectionInfo(target));
  }

  // ---------------------------------------------------------------------
  // Properties of the initiator.

  /** A connect that times out or fails ends the run with
      `ConnectionTimeout` or `TcpConnection` naming the target, before any
      frame is written. */
  lemma ConnectFailures(env: Node.Env, target: SocketAddr, first: Reply, second: Reply)
    ensures Handshake(env, target, ConnectTimedOut, first, second) == Outcome(Failure(ConnectionTimeout), [])
    ensures Handshake(env, target, ConnectRefused, first, second) == Outcome(Failure(TcpConnection(target)), [])
  {
  }

  /** Without a local address the run ends with `LocalAddress` before any
      frame is written. */
  lemma NoLocalAddressFails(env: Node.Env, target: SocketAddr, first: Reply, second: Reply)
    requires env.local.None?
    ensures Handshake(env, target, Established, first, second) == Outcome(Failure(LocalAddress), [])
  {
  }

  /** Once connected with a local address, the first frame written is the
      version message naming the target as receiver and the local address
      as sender; it decodes back to that message. */
  lemma FirstFrameIsVersion(env: Node.Env, target: SocketAddr, first: Reply, second: Reply)
    requires env.local.Some?
    requires Versions.Canonical(target) && Versions.Canonical(env.local.value)
    ensures var o := Handshake(env, target, Established, first, second);
      && |o.sent| >= 1
      && Bitcoin.Decode(env.sha, o.sent[0]) == Ok(Node.VersionMessage(env, target))
      && Node.VersionMessage(env, target).payload.version.receiverAddress == target
      && Node.VersionMessage(env, target).payload.version.senderAddress == env.local.value
  {
    Node.VersionFrameDecodes(env, target);
    FramesSent(Node.FramesFor(env, target), target, Hear(env.sha, first), Hear(env.sha, second));
  }

  /** Every run writes at most the version frame and then the verack frame,
      each at most once, in that order: there are no retries. */
  lemma FramesSent(frames: Node.Frames, target: SocketAddr, first: Heard, second: Heard)
    ensures var o := Initiate(frames, target, first, second);
      && |o.sent| <= 2
      && (|o.sent| >= 1 ==> frames.version.Built? && o.sent[0] == frames.version.bytes)
      && (|o.sent| == 2 ==> frames.verack.Built? && o.sent[1] == frames.verack.bytes)
      && (frames.version.Built? ==> |o.sent| >= 1)
  {
  }

  /** A reply that does not come in time ends the version phase with
      `VersionTimeout` once the version frame is written. */
  lemma VersionTimesOut(frames: Node.Frames, target: SocketAddr, second: Heard)
    requires frames.version.Built?
    ensures Initiate(frames, target, Late, second) == Outcome(Failure(VersionTimeout), [frames.version.bytes])
  {
  }

  /** A version reply that comes, followed by a verack reply that does not,
      ends the run with `VerackTimeout` once both frames are written. */
  lemma VerAckTimesOut(frames: Node.Frames, target: SocketAddr, reply: Bitcoin.Message)
    requires frames.version.Built? && frames.verack.Built?
    requires reply.ty == MessageTypes.Version
    ensures Initiate(frames, target, Got(reply), Late)
            == Outcome(Failure(VerackTimeout), [frames.version.bytes, frames.verack.bytes])
  {
  }

  /** A failed read or an undecodable buffer ends the version phase with
      `FillBuffer` or `DeserializeVersionResponse`, once its frame is
      written. */
  lemma VersionReadErrors(frames: Node.Frames, target: SocketAddr, e: SerdeBitcoinError, second: Heard)
    requires frames.version.Built?
    ensures Initiate(frames, target, Lost, second) == Outcome(Failure(FillBuffer), [frames.version.bytes])
    ensures Initiate(frames, target, Garbled(e), second)
            == Outcome(Failure(DeserializeVersionResponse(e)), [frames.version.bytes])
  {
  }

  /** A failed read or an undecodable buffer ends the verack phase with
      `FillBuffer` or `DeserializeVerackResponse`, once both frames are
      written. */
  lemma VerAckReadErrors(frames: Node.Frames, target: SocketAddr, reply: Bitcoin.Message, e: SerdeBitcoinError)
    requires frames.version.Built? && frames.verack.Built?
    requires reply.ty == MessageTypes.Version
    ensures Initiate(frames, target, Got(reply), Lost)
            == Outcome(Failure(FillBuffer), [frames.version.bytes, frames.verack.bytes])
    ensures Initiate(frames, target, Got(reply), Garbled(e))
            == Outcome(Failure(DeserializeVerackResponse(e)), [frames.version.bytes, frames.verack.bytes])
  {
  }

  /** A first reply that is not a version message ends the run with the
      received type's name and "version", and no verack frame is written. */
  lemma FirstReplyMustBeVersion(frames: Node.Frames, target: SocketAddr, reply: Bitcoin.Message, second: Heard)
    requires frames.version.Built?
    requires reply.ty != MessageTypes.Version
    ensures Initiate(frames, target, Got(reply), second)
            == Outcome(Failure(ReceivedWrongMessageType(MessageTypes.Name(reply.ty), "version")), [frames.version.bytes])
  {
  }

  /** A `verack` where the version reply should be is reported, as
      written, as "Expected verack, received version"; the corrected text
      names them the other way round. */
  lemma VerAckBeforeVersionReport(frames: Node.Frames, target: SocketAddr, reply: Bitcoin.Message, second: Heard)
    requires frames.version.Built?
    requires reply.ty == MessageTypes.VerAck
    ensures var o := Initiate(frames, target, Got(reply), second);
      && o.done == Failure(ReceivedWrongMessageType("verack", "version"))
      && Describe(o.done.error) == "Received wrong message type. Expected verack, received version"
      && Report.WrongTypeText(o.done.error.received, o.done.error.expected)
         == "Received wrong message type. Expected version, received verack"
  {
    FirstReplyMustBeVersion(frames, target, reply, second);
    WrongTypeVerAckTexts();
  }

  lemma WrongTypeVerAckTexts()
    ensures Describe(ReceivedWrongMessageType("verack", "version"))
            == "Received wrong message type. Expected verack, received version"
    ensures Report.WrongTypeText("verack", "version")
            == "Received wrong message type. Expected version, received verack"
  {
    Report.AsWrittenSwapsNames();
    Report.IntendedExample();
  }

  /** A second reply that is not a verack message ends the run with the
      received type's name and "verack", after both frames are written. */
  lemma SecondReplyMustBeVerAck(frames: Node.Frames, target: SocketAddr, first: Bitcoin.Message, second: Bitcoin.Message)
    requires frames.version.Built? && frames.verack.Built?
    requires first.ty == MessageTypes.Version && second.ty != MessageTypes.VerAck
    ensures Initiate(frames, target, Got(first), Got(second))
            == Outcome(Failure(ReceivedWrongMessageType(MessageTypes.Name(second.ty), "verack")),
                       [frames.version.bytes, frames.verack.bytes])
  {
  }

  /** A reply heard as a message of the given type. */
  predicate Carries(heard: Heard, ty: MessageTypes.MessageType) {
    heard.Got? && heard.msg.ty == ty
  }

  /** The run succeeds exactly when both frames are built, the first reply
      is a version message and the second a verack message; it then reports
      the target address and has written the version and verack frames. */
  lemma SuccessIff(frames: Node.Frames, target: SocketAddr, first: Heard, second: Heard)
    ensures var o := Initiate(frames, target, first, second);
      o.done.Success? <==>
        frames.version.Built? && frames.verack.Built?
        && Carries(first, MessageTypes.Version) && Carries(second, MessageTypes.VerAck)
    ensures var o := Initiate(frames, target, first, second);
      o.done.Success? ==> o.done.info.addr == target && o.sent == [frames.version.bytes, frames.verack.bytes]
  {
  }

  /** The handshake as the initiator sees it, for a connected run with a
      local address: success, reporting the target, exactly when the first
      reply decodes to a version message and the second to a verack
      message; both frames have then been written. */
  lemma Succeeds(env: Node.Env, target: SocketAddr, first: Reply, second: Reply)
    requires env.local.Some?
    ensures var o := Handshake(env, target, Established, first, second);
      o.done.Success? <==>
        && first.Received? && Bitcoin.Decode(env.sha, first.bytes).Ok?
        && Bitcoin.Decode(env.sha, first.bytes).value.ty == MessageTypes.Version
        && second.Received? && Bitcoin.Decode(env.sha, second.bytes).Ok?
        && Bitcoin.Decode(env.sha, second.bytes).value.ty == MessageTypes.VerAck
    ensures var o := Handshake(env, target, Established, first, second);
      o.done.Success? ==>
        o.done.info.addr == target && o.sent == [Node.VersionFrame(env, target).bytes, Node.VerAckFrame(env).bytes]
  {
    Node.VersionFrameBuilt(env, target);
    Node.VerAckFrameDecodes(env);
    SuccessIff(Node.FramesFor(env, target), target, Hear(env.sha, first), Hear(env.sha, second));
  }

  /** Two replies that decode to a version and then a verack message
      complete the handshake with the target. */
  lemma Completes(env: Node.Env, target: SocketAddr, first: seq<byte>, second: seq<byte>)
    requires env.local.Some?
    requires Bitcoin.Decode(env.sha, first).Ok? && Bitcoin.Decode(env.sha, first).value.ty == MessageTypes.Version
    requires Bitcoin.Decode(env.sha, second).Ok? && Bitcoin.Decode(env.sha, second).value.ty == MessageTypes.VerAck
    ensures Handshake(env, target, Established, Received(first), Received(second))
            == Outcome(Success(ConnectionInfo(target)), [Node.VersionFrame(env, target).bytes, Node.VerAckFrame(env).bytes])
  {
    Succeeds(env, target, Received(first), Received(second));
  }
}
