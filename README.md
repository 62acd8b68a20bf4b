# Bitcoin P2P handshake, modelled in Dafny

This project models a small Bitcoin peer-to-peer handshake tool. It has two parts:

- **A codec** (the `bitcoin` crate). It reads and writes the message envelope: network magic, 12-byte command name, little-endian payload length, double-SHA-256 checksum, then the payload. It also reads and writes the two payloads a handshake needs: `version`, the identity a node announces, and `verack`, an empty acknowledgment.
- **Two drivers.** The responder (`listener::run`) moves a peer's entry in a connection table from `NoConnection` to `Connecting` to `Connected`. The initiator (`sender::run`) connects, then sends `version` and expects `version`, then sends `verack` and expects `verack`.

How the modules map to the source:

| Module | Models | Style |
|---|---|---|
| `Bytes` | the fixed-width integer encodings of `byteorder` and of `to_le_bytes`, plus UTF-8 validity | functions with round-trip lemmas |
| `Io.Cursor` | `std::io::Cursor` | a class whose reads advance `pos` |
| `MessageTypes` | `message_type.rs` | functions and lemmas; `Serialize` is a method because the source pads a buffer in place |
| `Versions` | `version.rs` | an encode and a decode function, plus methods `Serialize` and `Deserialize` that write and read field by field and are proved equal to them |
| `VerAcks` | `verack.rs` | functions |
| `Bitcoin` | `lib.rs` | same pattern as `Versions`: functions for the frame, methods proved equal to them |
| `Node` | the frames both drivers build (`send_version`/`send_verack` and `version`/`verack`) | functions and methods |
| `Listener` | `listener/mod.rs` | a `ConnectionTable` class holds the map; method `Run` has a loop proved against the recursive function `Serve` |
| `Sender` | `sender/mod.rs` | a straight-line method `Run` proved against the function `Handshake` |
| `Interop` | the two drivers run against each other | lemmas |
| `Report` | the error texts of both drivers, including the wrong-message-type text as written and as intended | constants, functions and lemmas; see Findings |

Conventions throughout the model:

- **SHA-256** is a parameter (`Bitcoin.Hasher`). Every property holds for any function from bytes to 32-byte digests.
- **The clock reading and nonce** the version builder draws are parameters (`Node.Env`).
- **The socket** is a finite sequence of read outcomes. Running out of reads means the peer closed.

Three facts about the code:

- **The command is not derived from the payload.** A message carries its command and its payload separately, and encoding does not check that they agree. The decoder picks the payload decoder by the command. So a decoded message always agrees with its command (`Bitcoin.DecodedKinds`), but a version payload sent under `verack` decodes as a verack (`Bitcoin.CommandSelectsDecoder`).
- **The magic is not checked.** Decoding records the magic without testing it against either network (`Bitcoin.MagicNotChecked`).
- **The version payload size.** `Version::SIZE` (bitcoin/src/version.rs:57) is 100: 86 fixed bytes plus the 14-byte default user agent. It is only a capacity hint and the test's expected length; the encoding itself is 86 bytes plus the agent, whatever the agent's length (`Versions.Encode`).

## Model

| member | source | states |
|---|---|---|
| Bytes.LeValueOfBytes | bitcoin/src/lib.rs:135 | reading the n little-endian bytes of x gives x back |
| Bytes.LeBytesOfValue | bitcoin/src/lib.rs:163 | writing the value of any byte string gives that string back |
| Bytes.BeValueOfBytes | bitcoin/src/version.rs:74-81 | reading the n big-endian bytes of x gives x back |
| Bytes.BeBytesOfValue | bitcoin/src/version.rs:112 | writing the big-endian value of any byte string gives that string back |
| Bytes.TwosRoundTrip | bitcoin/src/version.rs:69 | signed fields written in two's complement read back to the same value |
| Bytes.FieldRoundTrips | bitcoin/src/version.rs:107-146 | every u16/u32/u64/u128/i32/i64 field reads back what was written |
| Bytes.AsciiInjective | bitcoin/src/message_type.rs:48 | distinct ASCII names have distinct bytes |
| Bytes.AsciiIsUtf8 | bitcoin/src/version.rs:45 | ASCII bytes are valid UTF-8 |
| Io.Cursor.ReadExact | bitcoin/src/lib.rs:155 | returns the next n bytes and advances, or fails with an I/O error at the end of the data |
| Io.Cursor.ReadU32Le | bitcoin/src/lib.rs:163 | reads a little-endian u32 at the position and advances by 4, or fails with an I/O error |
| MessageTypes.Name | bitcoin/src/message_type.rs:4-40 | each type's name is 1 to 11 lower-case letters or digits |
| MessageTypes.NameBytesInjective | bitcoin/src/message_type.rs:4-40 | no two types share a name |
| MessageTypes.LookupComplete | bitcoin/src/message_type.rs:69-70 | a table holding a type with the name finds a type |
| MessageTypes.FromNameComplete | bitcoin/src/message_type.rs:69-70 | parsing a type's own name gives that type |
| MessageTypes.FromNameIff | bitcoin/src/message_type.rs:69-71 | parsing succeeds exactly when some type has that name |
| MessageTypes.Field | bitcoin/src/message_type.rs:47-56 | the field is 12 bytes: the name, then zeros |
| MessageTypes.Serialize | bitcoin/src/message_type.rs:47-56 | serialization always succeeds with the padded field; the too-long error never fires |
| MessageTypes.TrailingZeros | bitcoin/src/message_type.rs:64 | counts exactly the trailing run of zero bytes |
| MessageTypes.Get | bitcoin/src/message_type.rs:67 | the slice exactly when the range is in bounds |
| MessageTypes.Deserialize | bitcoin/src/message_type.rs:58-75 | more than 12 bytes is `MessageTypeTooLong(len)` and nothing else is; `Infallible` never occurs |
| MessageTypes.DeserializeIff | bitcoin/src/message_type.rs:58-75 | a field decodes to t exactly when it is t's name followed only by zeros |
| MessageTypes.DeserializeUnknown | bitcoin/src/message_type.rs:67-71 | a stripped field naming no type fails with `UnknownType` carrying those bytes |
| MessageTypes.RoundTrip | bitcoin/src/message_type.rs:82-107 | every type decodes from its own field |
| MessageTypes.VersionField | bitcoin/src/message_type.rs:90-99 | `version` is "version" and five zero bytes |
| Versions.DefaultUserAgent | bitcoin/src/version.rs:45 | the default user agent is 14 bytes |
| Versions.Build | bitcoin/src/version.rs:11-54 | the builder's defaults: protocol 70016, services 1, height 0, no relay, "Satoshi:0.21.0", the given addresses, clock reading and nonce |
| Versions.ToIpv6Mapped | bitcoin/src/version.rs:76 | an IPv4 address becomes ::ffff: followed by its four octets |
| Versions.MappedIffPrefix | bitcoin/src/version.rs:61-64 | the segment test holds exactly when the first 12 octets are the IPv4-mapped prefix |
| Versions.ToIpv4Mapped | bitcoin/src/version.rs:116 | gives the last four octets exactly when the address has the mapped prefix |
| Versions.AddressLayout | bitcoin/src/version.rs:73-91 | IPv4 is written mapped and IPv6 unchanged, then the port big endian |
| Versions.DecodeIp | bitcoin/src/version.rs:112-121 | a mapped address decodes as IPv4, anything else as IPv6; `FailedToMapToIpv4` cannot occur |
| Versions.AddressRoundTrip | bitcoin/src/version.rs:111-123 | an address that is not IPv4-mapped IPv6 reads back unchanged |
| Versions.MappedIpv6ComesBackAsIpv4 | bitcoin/src/version.rs:112-121 | an IPv4-mapped IPv6 address reads back as IPv4 |
| Versions.DocumentationAddressExample | bitcoin/src/version.rs:74-80 | 192.0.2.1 is written as ::ffff:c000:201 and reads back |
| Versions.Encode | bitcoin/src/version.rs:67-103 | succeeds exactly when the user agent fits in 255 bytes, with 86 + agent bytes; otherwise `InvalidUserAgentLength` |
| Versions.Serialize | bitcoin/src/version.rs:67-103 | the field-by-field writer produces the encoding |
| Versions.HeadLayout | bitcoin/src/version.rs:69-93 | the offset of every fixed field in the first 80 bytes |
| Versions.TrailerLayout | bitcoin/src/version.rs:94-100 | length byte, user agent, start height, relay byte |
| Versions.DefaultSize | bitcoin/src/version.rs:178-181 | a default version encodes in `Version::SIZE` = 100 bytes |
| Versions.Decode | bitcoin/src/version.rs:105-161 | decoding fails only with `IoError` or `FailedToParseUserAgent` |
| Versions.DecodePrefix | bitcoin/src/version.rs:105-161 | every proper prefix of an encoding fails with `IoError` |
| Versions.DecodeTrailer | bitcoin/src/version.rs:139-146 | fails only with `IoError` or `FailedToParseUserAgent`; on success the length byte is the agent's length and the input holds all 6 + length bytes |
| Versions.ReadAddress | bitcoin/src/version.rs:111-123 | reads 18 bytes into the decoded address, or fails with an I/O error on short input |
| Versions.ReadUserAgent | bitcoin/src/version.rs:140-144 | reads the length byte and that many bytes; short input is `IoError` and non-UTF-8 is `FailedToParseUserAgent` |
| Versions.ReadTrailer | bitcoin/src/version.rs:139-146 | the cursor reads of the trailer equal the trailer decoder |
| Versions.Deserialize | bitcoin/src/version.rs:105-161 | the cursor reads equal the decoder |
| Versions.DecodeIgnoresTrailing | bitcoin/src/version.rs:105-161 | bytes after the relay flag are never read |
| Versions.DecodeRejectsBadUserAgent | bitcoin/src/version.rs:143-144 | a non-UTF-8 user agent is rejected whatever follows |
| Versions.DecodeRelay | bitcoin/src/version.rs:146 | relay is true exactly when its byte is nonzero |
| Versions.TrailerRoundTrip | bitcoin/src/version.rs:94-100 | the trailer reads back its agent, height and relay flag |
| Versions.HeadRoundTrip | bitcoin/src/version.rs:107-139 | the fixed fields read back from the first 80 bytes |
| Versions.RoundTrip | bitcoin/src/version.rs:168-189 | a version with an agent of at most 255 bytes and canonical addresses decodes to itself |
| VerAcks.SerializeIsEmpty | bitcoin/src/verack.rs:7-9 | the verack payload is empty |
| VerAcks.DeserializeIgnoresInput | bitcoin/src/verack.rs:11-13 | any bytes decode as verack |
| VerAcks.RoundTrip | bitcoin/src/verack.rs:20-34 | verack round-trips |
| Bitcoin.Build | bitcoin/src/lib.rs:86-98 | testnet magic exactly when the flag is set, mainnet magic otherwise |
| Bitcoin.Checksum | bitcoin/src/lib.rs:100-115 | the checksum is always 4 bytes long, so the `expect` at line 112 never panics |
| Bitcoin.SerializePayload | bitcoin/src/lib.rs:62-69 | the dispatch equals the payload's own encoder |
| Bitcoin.Frame | bitcoin/src/lib.rs:125-142 | a frame is 24 bytes longer than its payload |
| Bitcoin.FrameLayout | bitcoin/src/lib.rs:125-142 | magic, command field, length, checksum and payload at their offsets |
| Bitcoin.Encode | bitcoin/src/lib.rs:119-145 | payload errors propagate; a payload of 2^32 bytes or more is `InvalidPayloadLength`; success is 24 + payload bytes |
| Bitcoin.Serialize | bitcoin/src/lib.rs:119-145 | the appending writer produces the encoding |
| Bitcoin.EncodeErrors | bitcoin/src/lib.rs:121-123 | encoding fails exactly for a version whose agent exceeds 255 bytes, and then only with `InvalidUserAgentLength` |
| Bitcoin.DeserializePayload | bitcoin/src/lib.rs:183-187 | the dispatch on the command equals the payload decoder |
| Bitcoin.Decode | bitcoin/src/lib.rs:147-194 | a decoded frame has at least 24 bytes and keeps its first four bytes as magic |
| Bitcoin.Deserialize | bitcoin/src/lib.rs:147-194 | the cursor reads equal the decoder |
| Bitcoin.DeserializeBody | bitcoin/src/lib.rs:162-193 | the reads after the command field equal the body decoder |
| Bitcoin.Check | bitcoin/src/lib.rs:177-187 | the checksum test, then the payload dispatch, equal the last step of the decoder |
| Bitcoin.DecodedKinds | bitcoin/src/lib.rs:183-187 | only version and verack messages decode, each with the payload its command names |
| Bitcoin.DecodeKnownCommand | bitcoin/src/lib.rs:157-160 | a known command field hands the rest to the body decoder |
| Bitcoin.DecodeBodyThen | bitcoin/src/lib.rs:170-187 | a wrong checksum is rejected; otherwise the command selects the payload decoder |
| Bitcoin.DecodeFrame | bitcoin/src/lib.rs:147-194 | a frame decodes to its own magic and command and to the decoded payload |
| Bitcoin.DecodeBadChecksum | bitcoin/src/lib.rs:177-180 | any checksum other than the payload's is rejected before the payload is read |
| Bitcoin.DecodeUnknownCommand | bitcoin/src/lib.rs:186 | a command with no payload decoder is rejected by its name |
| Bitcoin.DecodeBodyTruncated | bitcoin/src/lib.rs:163-175 | a body shorter than its length field says is an I/O error |
| Bitcoin.DecodeTruncated | bitcoin/src/lib.rs:151-175 | every proper prefix of a frame is an I/O error |
| Bitcoin.DecodeIgnoresTrailing | bitcoin/src/lib.rs:147-194 | bytes after a decodable frame are never read |
| Bitcoin.MagicNotChecked | bitcoin/src/lib.rs:153-155 | replacing the magic changes only the decoded magic |
| Bitcoin.RoundTrip | bitcoin/src/lib.rs:203-241 | a well-formed message encodes and decodes to itself |
| Bitcoin.PayloadRoundTrip | bitcoin/src/lib.rs:183-187 | the payload of a well-formed message comes back from its decoder |
| Bitcoin.CommandSelectsDecoder | bitcoin/src/lib.rs:183-187 | a version payload sent under `verack` decodes as verack |
| Bitcoin.VerAckFrame | bitcoin/src/lib.rs:225-241 | a verack message is a bare 24-byte header with length 0 and the empty payload's checksum |
| Bitcoin.VersionMessageExample | bitcoin/src/lib.rs:203-223 | the crate's version test: 124 bytes, round trip for any clock reading and nonce |
| Bitcoin.VerAckMessageExample | bitcoin/src/lib.rs:225-241 | the crate's verack test round-trips |
| Node.VersionMessage | src/listener/mod.rs:85-90 | a version message naming the peer as receiver and the local address as sender, with the network's magic |
| Node.VerAckMessage | src/listener/mod.rs:105-106 | a verack message with the network's magic |
| Node.VersionFrame | src/listener/mod.rs:85-92 | `LocalAddress` exactly when there is no local address |
| Node.VerAckFrame | src/listener/mod.rs:104-108 | never a local-address failure |
| Node.BuildVersionFrame | src/listener/mod.rs:85-92 | builds the version frame |
| Node.BuildVerAckFrame | src/listener/mod.rs:104-108 | builds the verack frame |
| Node.VersionFrameBuilt | src/listener/mod.rs:85-92 | with a local address the version frame is always built: `BuildMessage` cannot occur |
| Node.VersionFrameDecodes | src/sender/mod.rs:66-79 | the version frame is 124 bytes and the peer decodes it back to the message |
| Node.VerAckFrameDecodes | src/sender/mod.rs:90-94 | the verack frame is 24 bytes and decodes back to the message |
| Listener.Lookup | src/listener/mod.rs:32-35 | a missing entry reads as `NoConnection` |
| Listener.ConnectionTable.Get | src/listener/mod.rs:32-35 | the status lookup on the table |
| Listener.ConnectionTable.Insert | src/listener/mod.rs:76 | overwrites exactly one entry |
| Listener.Describe | src/listener/mod.rs:120-141 | each error's text as its `#[error]` attribute writes it; the wrong-type text fills the format in the order the error holds its names, (received, expected) |
| Listener.DescribeTellsKindsApart | src/listener/mod.rs:120-141 | two errors with the same text are of the same kind |
| Listener.Classify | src/listener/mod.rs:38-48 | empty buffer, failed read, decode error or message, each exactly when the read is such |
| Listener.Classified | src/listener/mod.rs:31-48 | every read of the stream, read and decoded in order |
| Listener.Handle | src/listener/mod.rs:32-74 | one pass of the loop equals the step function |
| Listener.Answer | src/listener/mod.rs:50-74 | the state match equals the specification |
| Listener.Run | src/listener/mod.rs:23-78 | the loop's result, frames and final table are those of the session specification |
| Listener.NewPeerHasNoConnection | src/listener/mod.rs:14-20 | a new peer starts at `NoConnection` |
| Listener.NoPeerAddressFails | src/listener/mod.rs:29 | no peer address means `FailedToGetPeerAddr`, nothing sent |
| Listener.EmptyReadCloses | src/listener/mod.rs:41-44 | an empty read ends the run with success, nothing sent, table unchanged |
| Listener.FailedReadFails | src/listener/mod.rs:38 | a failed read ends the run with `FillBuffer` |
| Listener.UndecodableEnds | src/listener/mod.rs:47-48 | a decode failure ends the run with `DeserializeVersionResponse` in every state |
| Listener.FirstMessageMustBeVersion | src/listener/mod.rs:51-57 | in `NoConnection` anything but version fails with (received, "version") and writes no entry |
| Listener.VerAckBeforeVersionReport | src/listener/mod.rs:51-57 | a verack first ends the run with `ReceivedWrongMessageType("verack", "version")`, which the program reports as "Expected verack, received version"; the intended text would read "Expected version, received verack" |
| Listener.SecondMessageMustBeVerAck | src/listener/mod.rs:61-67 | in `Connecting` anything but verack fails with (received, "verack") |
| Listener.VersionIsAnswered | src/listener/mod.rs:58-59 | a version in `NoConnection` gets one reply, which decodes to the version message (receiver = peer, sender = local), and the status becomes `Connecting` |
| Listener.VerAckIsAnswered | src/listener/mod.rs:68-70 | a verack in `Connecting` gets one 24-byte verack reply, and the status becomes `Connected` |
| Listener.ConnectedAcceptsAll | src/listener/mod.rs:73 | `Connected` accepts any message, stays, sends nothing |
| Listener.ConnectedIsAbsorbing | src/listener/mod.rs:31-78 | from `Connected` the rest of a run sends nothing, changes no entry and never fails on a type |
| Listener.OnlyPeerEntryChanges | src/listener/mod.rs:76 | a run changes no entry but its own peer's |
| Listener.StatusOnlyAdvances | src/listener/mod.rs:50-76 | the status never moves back, and each frame sent moves it forward |
| Listener.ServeHandshake | src/listener/mod.rs:50-76 | version then verack get exactly the two replies and end `Connected`; other entries are unchanged |
| Listener.Handshake | src/listener/mod.rs:23-78 | the same for the frames built from the environment |
| Sender.Hear | src/sender/mod.rs:83-87 | timeout, failed read, decode error or message, each exactly when the reply is such |
| Sender.Await | src/sender/mod.rs:103-108 | the read and decode of a phase equal the specification |
| Sender.Version | src/sender/mod.rs:61-88 | the version phase equals the specification |
| Sender.VerAck | src/sender/mod.rs:90-109 | the verack phase equals the specification |
| Sender.Run | src/sender/mod.rs:28-59 | the result and frames written are those of the handshake specification |
| Sender.ConnectFailures | src/sender/mod.rs:30-33 | a connect timeout is `ConnectionTimeout` and a connect failure is `TcpConnection(target)`, nothing sent |
| Sender.NoLocalAddressFails | src/sender/mod.rs:68 | no local address is `LocalAddress`, nothing sent |
| Sender.FirstFrameIsVersion | src/sender/mod.rs:66-79 | the first frame written decodes to a version message with receiver = target and sender = local |
| Sender.FramesSent | src/sender/mod.rs:28-59 | at most the version frame then the verack frame, each once: no retries |
| Sender.VersionTimesOut | src/sender/mod.rs:37-39 | a late first reply is `VersionTimeout` after the version frame |
| Sender.VerAckTimesOut | src/sender/mod.rs:49-51 | a late second reply is `VerackTimeout` after both frames |
| Sender.VersionReadErrors | src/sender/mod.rs:84-87 | `FillBuffer` or `DeserializeVersionResponse` in the first phase |
| Sender.VerAckReadErrors | src/sender/mod.rs:105-108 | `FillBuffer` or `DeserializeVerackResponse` in the second phase |
| Sender.Describe | src/sender/mod.rs:111-141 | each error's text as its `#[error]` attribute writes it; the wrong-type text fills the format in the order the error holds its names, (received, expected) |
| Sender.DescribeTellsKindsApart | src/sender/mod.rs:111-141 | two errors with the same text are of the same kind |
| Sender.VerAckBeforeVersionReport | src/sender/mod.rs:41-46 | a verack as the version reply ends the run with `ReceivedWrongMessageType("verack", "version")`, which the program reports as "Expected verack, received version"; the intended text would read "Expected version, received verack" |
| Sender.FirstReplyMustBeVersion | src/sender/mod.rs:41-46 | a first reply other than version fails with (received, "version") and no verack is sent |
| Sender.SecondReplyMustBeVerAck | src/sender/mod.rs:52-57 | a second reply other than verack fails with (received, "verack") |
| Sender.SuccessIff | src/sender/mod.rs:41-58 | success exactly when both frames are built and the replies are version then verack; then addr = target and both frames were sent |
| Sender.Succeeds | src/sender/mod.rs:28-59 | the same for the frames built from the environment |
| Sender.Completes | src/sender/mod.rs:58 | version then verack replies give `ConnectionInfo(target)` |
| Interop.ResponderCompletes | src/listener/mod.rs:23-78 | the responder fed the initiator's frames answers with its own two frames and marks the initiator `Connected` |
| Interop.InitiatorCompletes | src/sender/mod.rs:28-59 | the initiator hearing the responder's frames succeeds with the target address |
| Report.WrongTypeTextAsWritten | src/listener/mod.rs:138-139 | the text as the format string writes it |
| Report.AsWrittenStartsWithPrefix | src/listener/mod.rs:138-139 | every wrong-type text begins with "Received wrong message type. Expected " |
| Report.AsWrittenSwapsNames | src/listener/mod.rs:138-139 | as written, a verack in place of a version reads "Expected verack, received version" |
| Report.WrongTypeText | src/sender/mod.rs:139-140 | the intended text |
| Report.WrongTypeTextNames | src/sender/mod.rs:139-140 | the intended text names the expected type after "Expected" and the received type at the end |
| Report.IntendedExample | src/listener/mod.rs:138-139 | the intended text for the same case reads "Expected version, received verack" |

## Left out

- **I/O.** Reads, writes and flushes on the TCP stream, and `BufReader::fill_buf`, are out of scope. Each read is an outcome given in advance: a buffer, a failure, or (for the initiator) a timeout. A buffer is taken to hold what the peer sent; partial and coalesced reads are not modelled. Writes and flushes always succeed, so `SendVersion`, `SendVerack` and `FailedToFlushStream` are not represented.
- **Time.** Durations and the timer are out of scope: the 15 s and 30 s limits appear only as constants. A timeout is an outcome of the connect or of a phase's read.
- **Concurrency.** The `DashMap` and concurrent tasks are out of scope. Each responder run owns the table alone.
- **Other files.** `src/main.rs` and `src/config.rs` are context and are not part of this model; the network choice is the `testnet` flag.
- **SHA-256** is a parameter, not an implementation.
- **Clock and nonce.** `Utc::now()` and `rand::random` are parameters.
- **Logging.** The `tracing` calls are out of scope.
- Listener.Classified: every read is decoded up front. Decoding is pure and the loop stops at the first read that ends it, so later reads are never looked at.
- Versions.Build: `BuildVersionPayload` is not represented. Every builder field has a default once the two addresses are set, so that builder error cannot occur.
- Bitcoin.DeserializeBody: the `usize::try_from(u32)` conversion is taken to succeed, as it does wherever `usize` has at least 32 bits.
- MessageTypes.Deserialize: the `UnknownType` error carries the stripped bytes, not the `from_utf8_lossy` text. For matching this changes nothing: every name is ASCII, so a lossy text with a replacement character never matches a name.
- **Error details.**
  - The wrapped `io::Error`, `TryFromIntError`, `FromUtf8Error` and `Elapsed` values are dropped.
  - `Sender.Error.TcpConnection` carries the target address, not its text.
- Sender.Describe: the `TcpConnection` text stops before the address, because the text form of a socket address is not part of this model.
- `Versions.SocketAddr` has no IPv6 flow information or scope id. Neither is carried on the wire.

## Findings

| source | as written | input that shows it | evidently intended | confidence | as-written member | corrected member |
|---|---|---|---|---|---|---|
| src/listener/mod.rs:138 | the format "Expected {0}, received {1}" gets (received, expected), as constructed at lines 53-56 | a responder in `NoConnection` reading a `verack` reports "Expected verack, received version" | "Expected version, received verack" | not executed; high | Report.AsWrittenSwapsNames | Report.WrongTypeTextNames |
| src/sender/mod.rs:139 | the same format gets (received, expected), as constructed at lines 42-45 | an initiator whose version reply is a `verack` reports "Expected verack, received version" | "Expected version, received verack" | not executed; high | Report.AsWrittenSwapsNames | Report.WrongTypeTextNames |

Both drivers' `Describe` functions give the text the program displays, the names in the swapped order. The corrected text is `Report.WrongTypeText`. Each driver's `VerAckBeforeVersionReport` states both texts for the same run.
