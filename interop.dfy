/** The two drivers against each other: an initiator that connects to a
    responder and the responder that accepts it. The responder's peer is the
    initiator's local address, and each side reads exactly the frames the
    other writes. Both use the same hash function, SHA-256. */
module Interop {
  import opened SerdeBitcoin
  import Bitcoin
  import MessageTypes
  import Versions
  import Node
  import Listener
  import Sender

  /** The responder, fed the initiator's version and verack frames, answers
      with its own version and verack frames and records the initiator
      as `Connected`. */
  lemma ResponderCompletes(client: Node.Env, server: Node.Env, serverAddr: Versions.SocketAddr,
                           entries: map<Versions.SocketAddr, Listener.ConnectionStatus>, rest: seq<Listener.Read>)
    requires client.sha == server.sha && client.local.Some? && server.local.Some?
    requires Versions.Canonical(serverAddr) && Versions.Canonical(client.local.value)
    requires Listener.Lookup(entries, client.local.value) == Listener.NoConnection
    ensures var peer := client.local.value;
      var o := Listener.Session(server, Some(peer), entries,
        [Listener.Received(Node.VersionBytes(client, serverAddr)), Listener.Received(Node.VerAckBytes(client))] + rest);
      && o.sent == [Node.VersionBytes(server, peer), Node.VerAckBytes(server)]
      && Listener.Lookup(o.entries, peer) == Listener.Connected
  {
    var peer := client.local.value;
    Node.VersionFrameDecodes(client, serverAddr);
    Node.VerAckFrameDecodes(client);
    Listener.Handshake(server, peer, entries, Node.VersionBytes(client, serverAddr), Node.VerAckBytes(client), rest);
  }

  /** The initiator, hearing the responder's version and verack frames,
      completes the handshake with the address it connected to, having
      written its own version and verack frames. */
  lemma InitiatorCompletes(client: Node.Env, server: Node.Env, serverAddr: Versions.SocketAddr)
    requires client.sha == server.sha && client.local.Some? && server.local.Some?
    requires Versions.Canonical(server.local.value) && Versions.Canonical(client.local.value)
    ensures var peer := client.local.value;
      Sender.Handshake(client, serverAddr, Sender.Established,
        Sender.Received(Node.VersionBytes(server, peer)), Sender.Received(Node.VerAckBytes(server)))
      == Sender.Outcome(Sender.Success(Sender.ConnectionInfo(serverAddr)),
                        [Node.VersionBytes(client, serverAddr), Node.VerAckBytes(client)])
  {
    var peer := client.local.value;
    Node.VersionFrameDecodes(server, peer);
    Node.VerAckFrameDecodes(server);
    Sender.Completes(client, serverAddr, Node.VersionBytes(server, peer), Node.VerAckBytes(server));
  }
}
