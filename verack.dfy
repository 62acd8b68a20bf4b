/** The `verack` payload: it carries nothing. */
module VerAcks {
  import opened Bytes
  import opened SerdeBitcoin

  datatype VerAck = VerAck

  /** `VerAck::serialize`: always the empty payload. */
  function Serialize(v: VerAck): (r: Result<seq<byte>>)
  {
    Ok([])
  }

  /** `VerAck::deserialize`: always succeeds, reading nothing. */
  function Deserialize(data: seq<byte>): (r: Result<VerAck>)
  {
    Ok(VerAck)
  }

  /** Serialization never fails and produces no bytes. */
  lemma SerializeIsEmpty(v: VerAck)
    ensures Serialize(v) == Ok([])
  {
  }

  /** Decoding ignores its input entirely: every byte string, of any length,
      decodes to the same value. */
  lemma DeserializeIgnoresInput(a: seq<byte>, b: seq<byte>)
    ensures Deserialize(a) == Deserialize(b) == Ok(VerAck)
  {
  }

  lemma RoundTrip(v: VerAck)
    ensures Deserialize(Serialize(v).value) == Ok(v)
  {
  }
}
