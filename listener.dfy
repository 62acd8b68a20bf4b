/** The responder side of the handshake (`listener::run`): for one accepted
    peer, a loop that reads a buffer, decodes it as a message, and advances
    the peer's entry in the connection table NoConnection -> Connecting ->
    Connected, replying with a version and then a verack frame.

    The socket is replaced by a finite sequence of read outcomes; running out
    of reads is the peer closing the connection. Writes and flushes are
    taken to succeed. */
module Listener {
  import opened Bytes
  import opened SerdeBitcoin
  import Bitcoin
  import MessageTypes
  import Versions
  import Node
  import Report

  type SocketAddr = Versions.SocketAddr

  /** `ConnectionStatus`; `NoConnection` is its default. */
  datatype ConnectionStatus = NoConnection | Connecting | Connected

  /** The errors `run` can end with. `BuildVersionPayload` is not
      represented: every field of the builder has a default. `SendVersion`,
      `SendVerack` and `FailedToFlushStream` are not represented: writes and
      flushes succeed in this model. */
  datatype Error =
    | LocalAddress
    | BuildMessage(error: SerdeBitcoinError)
    | FillBuffer
    | DeserializeVersionResponse(error: SerdeBitcoinError)
    /** The received type's name, then the expected type's name. */
    | ReceivedWrongMessageType(received: string, expected: string)
    | FailedToGetPeerAddr

  /** The text of each error, as the `#[error]` attributes of the program's
      errors write it. The wrong-type format puts its first argument, the
      received type's name, after "Expected" (see `Report`). */
  function Describe(e: Error): (text: string)
    ensures e.LocalAddress? ==> text == Report.LOCAL_ADDRESS
    ensures e.BuildMessage? ==> text == Report.BUILD_MESSAGE
    ensures e.FillBuffer? ==> text == Report.FILL_BUFFER
    ensures e.DeserializeVersionResponse? ==> text == Report.DESERIALIZE_VERSION
    ensures e.ReceivedWrongMessageType? ==> text == Report.WrongTypeTextAsWritten(e.received, e.expected)
    ensures e.FailedToGetPeerAddr? ==> text == Report.PEER_ADDRESS
  {
    match e
    case LocalAddress => Report.LOCAL_ADDRESS
    case BuildMessage(_) => Report.BUILD_MESSAGE
    case FillBuffer => Report.FILL_BUFFER
    case DeserializeVersionResponse(_) => Report.DESERIALIZE_VERSION
    case ReceivedWrongMessageType(received, expected) => Report.WrongTypeTextAsWritten(received, expected)
    case FailedToGetPeerAddr => Report.PEER_ADDRESS
  }

  /** The text tells the kinds of error apart: two errors with the same text
      are of the same kind. */
  lemma DescribeTellsKindsApart(a: Error, b: Error)
    requires Describe(a) == Describe(b)
    ensures a.LocalAddress? == b.LocalAddress? && a.BuildMessage? == b.BuildMessage?
    ensures a.FillBuffer? == b.FillBuffer? && a.DeserializeVersionResponse? == b.DeserializeVersionResponse?
    ensures a.ReceivedWrongMessageType? == b.ReceivedWrongMessageType? && a.FailedToGetPeerAddr? == b.FailedToGetPeerAddr?
  {
    DescribeMark(a);
    DescribeMark(b);
  }

  /** The character at index 20 of each text, which differs between kinds. */
  function Mark(e: Error): char {
    match e
    case LocalAddress => 'l'
    case BuildMessage(_) => 'v'
    case FillBuffer => 'r'
    case DeserializeVersionResponse(_) => 'e'
    case ReceivedWrongMessageType(_, _) => 'g'
    case FailedToGetPeerAddr => 'd'
  }

  lemma DescribeMark(e: Error)
    ensures |Describe(e)| > 20 && Describe(e)[20] == Mark(e)
  {
    if e.ReceivedWrongMessageType? {
      Report.AsWrittenStartsWithPrefix(e.received, e.expected);
    }
  }

  /** One `fill_buf` on the stream: the bytes available, or a failure. */
  datatype Read = Received(bytes: seq<byte>) | ReadFailed

  /** How `run` returns: `Ok(())` when the peer closed, or an error. */
  datatype Ended = Closed | Failed(error: Error)

  /** One pass of the loop: go on with a new status after sending the reply
      frames, or return. */
  datatype Step = Next(status: ConnectionStatus, reply: seq<seq<byte>>) | Stop(ended: Ended)

  /** The state after a run: how it ended, the table, the frames sent. */
  datatype Outcome = Outcome(ended: Ended, entries: map<SocketAddr, ConnectionStatus>, sent: seq<seq<byte>>)

  /** `connections.get(&addr)....unwrap_or_default()`. */
  function Lookup(entries: map<SocketAddr, ConnectionStatus>, addr: SocketAddr): (s: ConnectionStatus)
    ensures addr in entries ==> s == entries[addr]
    ensures addr !in entries ==> s == NoConnection
  {
    if addr in entries then entries[addr] else NoConnection
  }

  /** The shared connection map, owned here by one task. */
  class ConnectionTable {
    var entries: map<SocketAddr, ConnectionStatus>

    constructor ()
      ensures entries == map[]
    {
      entries := map[];
    }

    function Get(addr: SocketAddr): (s: ConnectionStatus)
      reads this
      ensures s == Lookup(entries, addr)
    {
      if addr in entries then entries[addr] else NoConnection
    }

    method Insert(addr: SocketAddr, s: ConnectionStatus)
      modifies this
      ensures entries == old(entries)[addr := s]
    {
      entries := entries[addr := s];
    }
  }

  /** Sending a built frame and moving to the given status. */
  function Reply(f: Node.Frame, status: ConnectionStatus): Step {
    match f
    case Built(b) => Next(status, [b])
    case NoLocalAddress => Stop(Failed(LocalAddress))
    case BuildFailed(e) => Stop(Failed(BuildMessage(e)))
  }

  function WrongType(received: MessageTypes.MessageType, expected: MessageTypes.MessageType): Step {
    Stop(Failed(ReceivedWrongMessageType(MessageTypes.Name(received), MessageTypes.Name(expected))))
  }

  /** The `match status` of the loop, on a decoded message. */
  function Respond(replies: Node.Frames, status: ConnectionStatus, msg: Bitcoin.Message): Step {
    match status
    case NoConnection =>
      if msg.ty != MessageTypes.Version then WrongType(msg.ty, MessageTypes.Version)
      else Reply(replies.version, Connecting)
    case Connecting =>
      if msg.ty != MessageTypes.VerAck then WrongType(msg.ty, MessageTypes.VerAck)
      else Reply(replies.verack, Connected)
    case Connected => Next(Connected, [])
  }

  /** What one `fill_buf` gives the loop: an empty buffer (the peer
      closed), a failed read, a buffer that does not decode, or a message. */
  datatype Input = EndOfStream | ReadError | Undecodable(error: SerdeBitcoinError) | Message(msg: Bitcoin.Message)

  /** Reading and decoding one buffer. */
  function Classify(sha: Bitcoin.Hasher, read: Read): (i: Input)
    ensures i == EndOfStream <==> read == Received([])
    ensures i == ReadError <==> read == ReadFailed
    ensures i.Undecodable? <==> read.Received? && read.bytes != [] && Bitcoin.Decode(sha, read.bytes).Err?
    ensures i.Undecodable? ==> i.error == Bitcoin.Decode(sha, read.bytes).error
    ensures i.Message? <==> read.Received? && read.bytes != [] && Bitcoin.Decode(sha, read.bytes).Ok?
    ensures i.Message? ==> i.msg == Bitcoin.Decode(sha, read.bytes).value
  {
    match read
    case ReadFailed => ReadError
    case Received(bytes) =>
      if bytes == [] then EndOfStream
      else match Bitcoin.Decode(sha, bytes)
        case Err(e) => Undecodable(e)
        case Ok(msg) => Message(msg)
  }

  /** Every read of a sequence, read and decoded. The loop stops at the
      first read that ends it, so what the later reads would decode to is
      never looked at. */
  function Classified(sha: Bitcoin.Hasher, incoming: seq<Read>): (inputs: seq<Input>)
    ensures |inputs| == |incoming|
    ensures forall k :: 0 <= k < |incoming| ==> inputs[k] == Classify(sha, incoming[k])
  {
    seq(|incoming|, k requires 0 <= k < |incoming| => Classify(sha, incoming[k]))
  }

  /** One pass of the loop on one input. */
  function StepOn(replies: Node.Frames, status: ConnectionStatus, input: Input): Step {
    match input
    case ReadError => Stop(Failed(FillBuffer))
    case EndOfStream => Stop(Closed)
    case Undecodable(e) => Stop(Failed(DeserializeVersionResponse(e)))
    case Message(msg) => Respond(replies, status, msg)
  }

  /** The loop of `run` over the remaining inputs. */
  function Serve(replies: Node.Frames, peer: SocketAddr, entries: map<SocketAddr, ConnectionStatus>,
                 inputs: seq<Input>): (o: Outcome)
    decreases |inputs|
  {
    if inputs == [] then Outcome(Closed, entries, [])
    else match StepOn(replies, Lookup(entries, peer), inputs[0])
      case Stop(e) => Outcome(e, entries, [])
      case Next(s, reply) =>
        var rest := Serve(replies, peer, entries[peer := s], inputs[1..]);
        Outcome(rest.ended, rest.entries, reply + rest.sent)
  }

  /** `run`: the peer address is asked for first. */
  function Session(env: Node.Env, peerAddr: Option<SocketAddr>, entries: map<SocketAddr, ConnectionStatus>, incoming: seq<Read>): Outcome {
    if peerAddr.None? then Outcome(Failed(FailedToGetPeerAddr), entries, [])
    else Serve(Node.FramesFor(env, peerAddr.value), peerAddr.value, entries, Classified(env.sha, incoming))
  }

  /** A run's outcome with frames sent earlier put in front. */
  function After(sent: seq<seq<byte>>, o: Outcome): Outcome {
    Outcome(o.ended, o.entries, sent + o.sent)
  }

  /** A loop whose first step stops ends there. */
  lemma ServeStops(replies: Node.Frames, peer: SocketAddr, entries: map<SocketAddr, ConnectionStatus>,
                   inputs: seq<Input>, e: Ended)
    requires inputs != [] && StepOn(replies, Lookup(entries, peer), inputs[0]) == Stop(e)
    ensures Serve(replies, peer, entries, inputs) == Outcome(e, entries, [])
  {
  }

  /** A loop whose first step continues sends that step's reply, then runs
      on from the updated table. */
  lemma ServeContinues(replies: Node.Frames, peer: SocketAddr, entries: map<SocketAddr, ConnectionStatus>,
                       inputs: seq<Input>, s: ConnectionStatus, reply: seq<seq<byte>>)
    requires inputs != [] && StepOn(replies, Lookup(entries, peer), inputs[0]) == Next(s, reply)
    ensures Serve(replies, peer, entries, inputs) == After(reply, Serve(replies, peer, entries[peer := s], inputs[1..]))
  {
  }

  lemma AfterAfter(a: seq<seq<byte>>, b: seq<seq<byte>>, o: Outcome)
    ensures After(a, After(b, o)) == After(a + b, o)
  {
    assert a + (b + o.sent) == a + b + o.sent;
  }

  /** One pass of the loop, after the status lookup. */
  method Handle(env: Node.Env, peer: SocketAddr, status: ConnectionStatus, read: Read) returns (step: Step)
    ensures step == StepOn(Node.FramesFor(env, peer), status, Classify(env.sha, read))
  {
    if read.ReadFailed? {
      return Stop(Failed(FillBuffer));
    }
    var buffer := read.bytes;
    if buffer == [] {
      return Stop(Closed);
    }
    var decoded := Bitcoin.Deserialize(env.sha, buffer);
    match decoded {
      case Err(e) =>
        return Stop(Failed(DeserializeVersionResponse(e)));
      case Ok(message) =>
        step := Answer(env, peer, status, message);
    }
  }

  /** The `match status` of the loop on a decoded message. */
  method Answer(env: Node.Env, peer: SocketAddr, status: ConnectionStatus, message: Bitcoin.Message) returns (step: Step)
    ensures step == Respond(Node.FramesFor(env, peer), status, message)
  {
    match status {
      case NoConnection =>
        if message.ty != MessageTypes.Version {
          return WrongType(message.ty, MessageTypes.Version);
        }
        var frame := Node.BuildVersionFrame(env, peer);
        step := Reply(frame, Connecting);
      case Connecting =>
        if message.ty != MessageTypes.VerAck {
          return WrongType(message.ty, MessageTypes.VerAck);
        }
        var frame := Node.BuildVerAckFrame(env);
        step := Reply(frame, Connected);
      case Connected =>
        step := Next(Connected, []);
    }
  }

  /** `run`: returns how the loop ended and the frames written, and leaves
      the table as the loop's inserts made it. */
  method Run(env: Node.Env, table: ConnectionTable, peerAddr: Option<SocketAddr>, incoming: seq<Read>)
    returns (ended: Ended, sent: seq<seq<byte>>)
    modifies table
    ensures Outcome(ended, table.entries, sent) == Session(env, peerAddr, old(table.entries), incoming)
  {
    if peerAddr.None? {
      return Failed(FailedToGetPeerAddr), [];
    }
    var addr := peerAddr.value;
    ghost var replies := Node.FramesFor(env, addr);
    ghost var inputs := Classified(env.sha, incoming);
    sent := [];
    var i := 0;
    while i < |incoming|
      invariant i <= |incoming|
      invariant Serve(replies, addr, old(table.entries), inputs)
                == After(sent, Serve(replies, addr, table.entries, inputs[i..]))
      decreases |incoming| - i
    {
      var status := table.Get(addr);
      var step := Handle(env, addr, status, incoming[i]);
      assert step == StepOn(replies, Lookup(table.entries, addr), inputs[i..][0]);
      match step {
        case Stop(e) =>
          ServeStops(replies, addr, table.entries, inputs[i..], e);
          return e, sent;
        case Next(newStatus, reply) =>
          ServeContinues(replies, addr, table.entries, inputs[i..], newStatus, reply);
          assert inputs[i..][1..] == inputs[i + 1..];
          AfterAfter(sent, reply, Serve(replies, addr, table.entries[addr := newStatus], inputs[i + 1..]));
          sent := sent + reply;
          table.Insert(addr, newStatus);
      }
      i := i + 1;
    }
    return Closed, sent;
  }

  // ---------------------------------------------------------------------
  // Properties of the responder.

  /** How far along the handshake a status is. */
  function Rank(s: ConnectionStatus): nat {
    match s
    case NoConnection => 0
    case Connecting => 1
    case Connected => 2
  }

  /** A peer with no entry is handled as `NoConnection`. */
  lemma NewPeerHasNoConnection(entries: map<SocketAddr, ConnectionStatus>, peer: SocketAddr)
    requires peer !in entries
    ensures Lookup(entries, peer) == NoConnection
  {
  }

  /** Reading a sequence that starts with one read. */
  lemma ClassifiedCons(sha: Bitcoin.Hasher, read: Read, rest: seq<Read>)
    ensures Classified(sha, [read] + rest) == [Classify(sha, read)] + Classified(sha, rest)
  {
    var a := Classified(sha, [read] + rest);
    var b := [Classify(sha, read)] + Classified(sha, rest);
    assert |a| == |b|;
    forall k | 0 <= k < |a|
      ensures a[k] == b[k]
    {
      if k > 0 {
        assert ([read] + rest)[k] == rest[k - 1];
      }
    }
  }

  /** The first pass of a session on a peer with an address. */
  lemma SessionFirst(env: Node.Env, peer: SocketAddr, entries: map<SocketAddr, ConnectionStatus>, read: Read, rest: seq<Read>)
    ensures var inputs := [Classify(env.sha, read)] + Classified(env.sha, rest);
      Session(env, Some(peer), entries, [read] + rest) == Serve(Node.FramesFor(env, peer), peer, entries, inputs)
      && inputs[0] == Classify(env.sha, read)
  {
    ClassifiedCons(env.sha, read, rest);
  }

  /** Without the peer's address the run fails at once, sends nothing and
      leaves the table as it was. */
  lemma NoPeerAddressFails(env: Node.Env, entries: map<SocketAddr, ConnectionStatus>, incoming: seq<Read>)
    ensures Session(env, None, entries, incoming) == Outcome(Failed(FailedToGetPeerAddr), entries, [])
  {
  }

  /** An empty read ends the run successfully, sending nothing and leaving
      the table as it was. */
  lemma EmptyReadCloses(env: Node.Env, peer: SocketAddr, entries: map<SocketAddr, ConnectionStatus>, rest: seq<Read>)
    ensures Session(env, Some(peer), entries, [Received([])] + rest) == Outcome(Closed, entries, [])
  {
    SessionFirst(env, peer, entries, Received([]), rest);
  }

  /** A failed read ends the run with `FillBuffer`. */
  lemma FailedReadFails(env: Node.Env, peer: SocketAddr, entries: map<SocketAddr, ConnectionStatus>, rest: seq<Read>)
    ensures Session(env, Some(peer), entries, [ReadFailed] + rest) == Outcome(Failed(FillBuffer), entries, [])
  {
    SessionFirst(env, peer, entries, ReadFailed, rest);
  }

  /** A buffer that does not decode ends the run with
      `DeserializeVersionResponse` and the decoder's error, whatever the
      status, sending nothing and leaving the table as it was. */
  lemma UndecodableEnds(env: Node.Env, peer: SocketAddr, entries: map<SocketAddr, ConnectionStatus>,
                        bytes: seq<byte>, rest: seq<Read>)
    requires bytes != [] && Bitcoin.Decode(env.sha, bytes).Err?
    ensures Session(env, Some(peer), entries, [Received(bytes)] + rest)
            == Outcome(Failed(DeserializeVersionResponse(Bitcoin.Decode(env.sha, bytes).error)), entries, [])
  {
    SessionFirst(env, peer, entries, Received(bytes), rest);
  }

  /** In `NoConnection`, a message other than `version` ends the run with
      the received type's name and "version", and the entry is not written. */
  lemma FirstMessageMustBeVersion(env: Node.Env, peer: SocketAddr, entries: map<SocketAddr, ConnectionStatus>,
                                  bytes: seq<byte>, rest: seq<Read>)
    requires Lookup(entries, peer) == NoConnection
    requires bytes != [] && Bitcoin.Decode(env.sha, bytes).Ok?
    requires Bitcoin.Decode(env.sha, bytes).value.ty != MessageTypes.Version
    ensures var received := MessageTypes.Name(Bitcoin.Decode(env.sha, bytes).value.ty);
      Session(env, Some(peer), entries, [Received(bytes)] + rest)
      == Outcome(Failed(ReceivedWrongMessageType(received, "version")), entries, [])
  {
    SessionFirst(env, peer, entries, Received(bytes), rest);
  }

  /** A `verack` where the `version` should be is reported, as written,
      as "Expected verack, received version"; the corrected text names them
      the other way round. A `verack` is the only message that can be out
      of place here, since only `version` and `verack` decode. */
  lemma VerAckBeforeVersionReport(env: Node.Env, peer: SocketAddr, entries: map<SocketAddr, ConnectionStatus>,
                                  bytes: seq<byte>, rest: seq<Read>)
    requires Lookup(entries, peer) == NoConnection
    requires bytes != [] && Bitcoin.Decode(env.sha, bytes).Ok?
    requires Bitcoin.Decode(env.sha, bytes).value.ty == MessageTypes.VerAck
    ensures var o := Session(env, Some(peer), entries, [Received(bytes)] + rest);
      && o.ended == Failed(ReceivedWrongMessageType("verack", "version"))
      && Describe(o.ended.error) == "Received wrong message type. Expected verack, received version"
      && Report.WrongTypeText(o.ended.error.received, o.ended.error.expected)
         == "Received wrong message type. Expected version, received verack"
  {
    FirstMessageMustBeVersion(env, peer, entries, bytes, rest);
    WrongTypeVerAckTexts();
  }

  lemma WrongTypeVerAckTexts()
    ensures Describe(ReceivedWrongMessageType("verack", "version"))
            == "Received wrong message type. Expected verack, received version"
    ensures Report.WrongTypeText("verack", "version")
            == "Received wrong message type. Expected version, received verack"
  {
    Report.AsWrittenSwapsNames();
    Report.IntendedExample();
  }

  /** In `Connecting`, a message other than `verack` ends the run with the
      received type's name and "verack". */
  lemma SecondMessageMustBeVerAck(env: Node.Env, peer: SocketAddr, entries: map<SocketAddr, ConnectionStatus>,
                                  bytes: seq<byte>, rest: seq<Read>)
    requires Lookup(entries, peer) == Connecting
    requires bytes != [] && Bitcoin.Decode(env.sha, bytes).Ok?
    requires Bitcoin.Decode(env.sha, bytes).value.ty != MessageTypes.VerAck
    ensures var received := MessageTypes.Name(Bitcoin.Decode(env.sha, bytes).value.ty);
      Session(env, Some(peer), entries, [Received(bytes)] + rest)
      == Outcome(Failed(ReceivedWrongMessageType(received, "verack")), entries, [])
  {
    SessionFirst(env, peer, entries, Received(bytes), rest);
  }

  /** In `NoConnection`, a `version` message is answered with exactly one
      frame, the version message naming the peer as receiver and the local
      address as sender, and the status becomes `Connecting`. */
  lemma VersionIsAnswered(env: Node.Env, peer: SocketAddr, bytes: seq<byte>)
    requires bytes != [] && Bitcoin.Decode(env.sha, bytes).Ok?
    requires Bitcoin.Decode(env.sha, bytes).value.ty == MessageTypes.Version
    requires env.local.Some? && Versions.Canonical(peer) && Versions.Canonical(env.local.value)
    ensures var step := StepOn(Node.FramesFor(env, peer), NoConnection, Classify(env.sha, Received(bytes)));
      && step.Next? && step.status == Connecting && |step.reply| == 1
      && Bitcoin.Decode(env.sha, step.reply[0]) == Ok(Node.VersionMessage(env, peer))
      && Node.VersionMessage(env, peer).payload.version.receiverAddress == peer
      && Node.VersionMessage(env, peer).payload.version.senderAddress == env.local.value
  {
    Node.VersionFrameDecodes(env, peer);
    VersionStep(Node.FramesFor(env, peer), Classify(env.sha, Received(bytes)));
  }

  /** In `Connecting`, a `verack` message is answered with exactly one
      verack frame and the status becomes `Connected`. */
  lemma VerAckIsAnswered(env: Node.Env, peer: SocketAddr, bytes: seq<byte>)
    requires bytes != [] && Bitcoin.Decode(env.sha, bytes).Ok?
    requires Bitcoin.Decode(env.sha, bytes).value.ty == MessageTypes.VerAck
    ensures var step := StepOn(Node.FramesFor(env, peer), Connecting, Classify(env.sha, Received(bytes)));
      && step.Next? && step.status == Connected && |step.reply| == 1
      && |step.reply[0]| == Bitcoin.BASE_SIZE
      && Bitcoin.Decode(env.sha, step.reply[0]) == Ok(Node.VerAckMessage(env))
  {
    Node.VerAckFrameDecodes(env);
    VerAckStep(Node.FramesFor(env, peer), Classify(env.sha, Received(bytes)));
  }

  /** The pass that answers a `version` in `NoConnection`. */
  lemma VersionStep(replies: Node.Frames, input: Input)
    requires input.Message? && input.msg.ty == MessageTypes.Version && replies.version.Built?
    ensures StepOn(replies, NoConnection, input) == Next(Connecting, [replies.version.bytes])
  {
  }

  /** The pass that answers a `verack` in `Connecting`. */
  lemma VerAckStep(replies: Node.Frames, input: Input)
    requires input.Message? && input.msg.ty == MessageTypes.VerAck && replies.verack.Built?
    ensures StepOn(replies, Connecting, input) == Next(Connected, [replies.verack.bytes])
  {
  }

  /** `Connected` accepts every decodable message, sends nothing and stays. */
  lemma ConnectedAcceptsAll(replies: Node.Frames, msg: Bitcoin.Message)
    ensures StepOn(replies, Connected, Message(msg)) == Next(Connected, [])
  {
  }

  /** Once the peer is `Connected`, the rest of the run sends nothing, leaves
      the table as it is, and cannot fail on a message type. */
  lemma {:induction false} ConnectedIsAbsorbing(replies: Node.Frames, peer: SocketAddr,
                                                entries: map<SocketAddr, ConnectionStatus>, inputs: seq<Input>)
    requires Lookup(entries, peer) == Connected
    ensures var o := Serve(replies, peer, entries, inputs);
      && o.sent == [] && o.entries == entries
      && !(o.ended.Failed? && o.ended.error.ReceivedWrongMessageType?)
    decreases |inputs|
  {
    if inputs != [] {
      var step := StepOn(replies, Connected, inputs[0]);
      if step.Next? {
        assert entries[peer := Connected] == entries;
        ConnectedIsAbsorbing(replies, peer, entries, inputs[1..]);
      }
    }
  }

  /** A run writes only the entry of its own peer. */
  lemma {:induction false} OnlyPeerEntryChanges(replies: Node.Frames, peer: SocketAddr,
                                                entries: map<SocketAddr, ConnectionStatus>, inputs: seq<Input>)
    ensures Serve(replies, peer, entries, inputs).entries - {peer} == entries - {peer}
    decreases |inputs|
  {
    if inputs != [] {
      var step := StepOn(replies, Lookup(entries, peer), inputs[0]);
      if step.Next? {
        OnlyPeerEntryChanges(replies, peer, entries[peer := step.status], inputs[1..]);
        assert entries[peer := step.status] - {peer} == entries - {peer};
      }
    }
  }

  /** The peer's status never moves back, and each frame sent advances it:
      at most one version and one verack frame are ever sent. */
  lemma {:induction false} StatusOnlyAdvances(replies: Node.Frames, peer: SocketAddr,
                                              entries: map<SocketAddr, ConnectionStatus>, inputs: seq<Input>)
    ensures var o := Serve(replies, peer, entries, inputs);
      && Rank(Lookup(o.entries, peer)) >= Rank(Lookup(entries, peer))
      && |o.sent| + Rank(Lookup(entries, peer)) <= Rank(Lookup(o.entries, peer))
    decreases |inputs|
  {
    if inputs != [] {
      var step := StepOn(replies, Lookup(entries, peer), inputs[0]);
      if step.Next? {
        StatusOnlyAdvances(replies, peer, entries[peer := step.status], inputs[1..]);
      }
    }
  }

  /** The handshake as the responder sees it: from `NoConnection`, a
      `version` then a `verack` are answered with the version and verack
      frames, the peer ends `Connected`, nothing else is ever sent, and no
      other entry is touched. */
  lemma Handshake(env: Node.Env, peer: SocketAddr, entries: map<SocketAddr, ConnectionStatus>,
                  version: seq<byte>, verack: seq<byte>, rest: seq<Read>)
    requires Lookup(entries, peer) == NoConnection
    requires version != [] && Bitcoin.Decode(env.sha, version).Ok?
    requires Bitcoin.Decode(env.sha, version).value.ty == MessageTypes.Version
    requires verack != [] && Bitcoin.Decode(env.sha, verack).Ok?
    requires Bitcoin.Decode(env.sha, verack).value.ty == MessageTypes.VerAck
    requires env.local.Some?
    ensures var o := Session(env, Some(peer), entries, [Received(version), Received(verack)] + rest);
      && o.sent == [Node.VersionFrame(env, peer).bytes, Node.VerAckFrame(env).bytes]
      && Lookup(o.entries, peer) == Connected
      && o.entries - {peer} == entries - {peer}
  {
    var replies := Node.FramesFor(env, peer);
    Node.VersionFrameBuilt(env, peer);
    Node.VerAckFrameDecodes(env);
    var m1 := Bitcoin.Decode(env.sha, version).value;
    var m2 := Bitcoin.Decode(env.sha, verack).value;
    HandshakeInputs(env.sha, version, verack, rest);
    ServeHandshake(replies, peer, entries, m1, m2, Classified(env.sha, rest));
  }

  /** A `version` buffer and a `verack` buffer, read and decoded. */
  lemma HandshakeInputs(sha: Bitcoin.Hasher, version: seq<byte>, verack: seq<byte>, rest: seq<Read>)
    requires version != [] && Bitcoin.Decode(sha, version).Ok?
    requires verack != [] && Bitcoin.Decode(sha, verack).Ok?
    ensures Classified(sha, [Received(version), Received(verack)] + rest)
            == [Message(Bitcoin.Decode(sha, version).value), Message(Bitcoin.Decode(sha, verack).value)] + Classified(sha, rest)
  {
    ClassifiedPair(sha, Received(version), Received(verack), rest);
  }

  /** Reading a sequence that starts with two reads. */
  lemma ClassifiedPair(sha: Bitcoin.Hasher, first: Read, second: Read, rest: seq<Read>)
    ensures Classified(sha, [first, second] + rest) == [Classify(sha, first), Classify(sha, second)] + Classified(sha, rest)
  {
    assert [first, second] + rest == [first] + ([second] + rest);
    ClassifiedCons(sha, first, [second] + rest);
    ClassifiedCons(sha, second, rest);
  }

  /** `Handshake` for any pair of built replies. */
  lemma ServeHandshake(replies: Node.Frames, peer: SocketAddr, entries: map<SocketAddr, ConnectionStatus>,
                       version: Bitcoin.Message, verack: Bitcoin.Message, rest: seq<Input>)
    requires Lookup(entries, peer) == NoConnection
    requires version.ty == MessageTypes.Version && verack.ty == MessageTypes.VerAck
    requires replies.version.Built? && replies.verack.Built?
    ensures var o := Serve(replies, peer, entries, [Message(version), Message(verack)] + rest);
      && o.sent == [replies.version.bytes, replies.verack.bytes]
      && Lookup(o.entries, peer) == Connected
      && o.entries - {peer} == entries - {peer}
  {
    var inputs := [Message(version), Message(verack)] + rest;
    assert inputs[0] == Message(version) && inputs[1..] == [Message(verack)] + rest;
    var connecting := entries[peer := Connecting];
    assert ([Message(verack)] + rest)[0] == Message(verack) && ([Message(verack)] + rest)[1..] == rest;
    var connected := connecting[peer := Connected];
    ConnectedIsAbsorbing(replies, peer, connected, rest);
    assert connected - {peer} == entries - {peer};
  }
}
