/** The texts the errors of both drivers display. For
    `ReceivedWrongMessageType(received, expected)` both drivers construct the
    error with the received type's name first and the expected type's name
    second, while the format string puts its first argument after
    "Expected". */
module Report {
  /** The fixed texts of the other errors of the two drivers. */
  const CONNECT: string := "Failed to connect to "
  const LOCAL_ADDRESS: string := "Failed to build the local address"
  const BUILD_MESSAGE: string := "Failed to build the version message"
  const FILL_BUFFER: string := "Failed to fill buffer"
  const DESERIALIZE_VERSION: string := "Failed to deserialize the version message response"
  const DESERIALIZE_VERACK: string := "Failed to deserialize the verack message response"
  const VERSION_TIMEOUT: string := "Version timeout"
  const VERACK_TIMEOUT: string := "Verack timeout"
  const CONNECTION_TIMEOUT: string := "Connection timeout"
  const PEER_ADDRESS: string := "Failed to get peer address"

  const PREFIX: string := "Received wrong message type. Expected "
  const MIDDLE: string := ", received "

  /** The text as the format string writes it: the first argument, which is
      the received name, comes after "Expected". */
  function WrongTypeTextAsWritten(received: string, expected: string): (r: string)
    ensures |r| == |PREFIX| + |received| + |MIDDLE| + |expected|
  {
    PREFIX + received + MIDDLE + expected
  }

  /** The text as written starts with the fixed prefix. */
  lemma AsWrittenStartsWithPrefix(received: string, expected: string)
    ensures var r := WrongTypeTextAsWritten(received, expected);
      |r| >= |PREFIX| && r[..|PREFIX|] == PREFIX
  {
    var r := WrongTypeTextAsWritten(received, expected);
    assert r == PREFIX + (received + MIDDLE + expected);
  }

  /** The text as evidently intended: the expected name after "Expected",
      the received name after "received". */
  function WrongTypeText(received: string, expected: string): (r: string)
    ensures |r| == |PREFIX| + |expected| + |MIDDLE| + |received|
  {
    PREFIX + expected + MIDDLE + received
  }

  /** A driver that expects `version` and gets `verack` reports, as
      written, that it expected `verack`. */
  lemma AsWrittenSwapsNames()
    ensures WrongTypeTextAsWritten("verack", "version")
            == "Received wrong message type. Expected verack, received version"
  {
  }

  /** The intended text names the expected type right after "Expected" and
      the received type at the end, for any pair of names. */
  lemma WrongTypeTextNames(received: string, expected: string)
    ensures var r := WrongTypeText(received, expected);
      && r[..|PREFIX|] == PREFIX
      && r[|PREFIX|..|PREFIX| + |expected|] == expected
      && r[|r| - |received|..] == received
  {
    var r := WrongTypeText(received, expected);
    assert r == PREFIX + (expected + (MIDDLE + received));
  }

  /** For the same pair, the intended text reports `version` as expected. */
  lemma IntendedExample()
    ensures WrongTypeText("verack", "version")
            == "Received wrong message type. Expected version, received verack"
  {
  }
}
