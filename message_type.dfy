/** The command-name codec: the closed set of message types the crate knows
    by name, and their 12-byte, zero-padded wire field. */
module MessageTypes {
  import opened Bytes
  import opened SerdeBitcoin

  datatype MessageType =
    | Version | VerAck | Ping | Addr | GetData | Tx | Block | GetBlocks | GetHeaders
    | Headers | Reject | MemPool | FeeFilter | SendHeaders | SendCmpct | WtxIdRelay | SendAddrV2

  /** Width of the command field. */
  const SIZE: nat := 12

  /** The canonical name of each type (its `Display` text). */
  function Name(t: MessageType): (r: string)
    ensures 0 < |r| <= 11
    ensures forall i :: 0 <= i < |r| ==> 'a' <= r[i] <= 'z' || '0' <= r[i] <= '9'
  {
    match t
    case Version => "version"
    case VerAck => "verack"
    case Ping => "ping"
    case Addr => "addr"
    case GetData => "getdata"
    case Tx => "tx"
    case Block => "block"
    case GetBlocks => "getblocks"
    case GetHeaders => "getheaders"
    case Headers => "headers"
    case Reject => "reject"
    case MemPool => "mempool"
    case FeeFilter => "feefilter"
    case SendHeaders => "sendheaders"
    case SendCmpct => "sendcmpct"
    case WtxIdRelay => "wtxidrelay"
    case SendAddrV2 => "sendaddrv2"
  }

  /** The name as bytes: at most 11 of them, none of them zero. */
  function NameBytes(t: MessageType): (r: seq<byte>)
    ensures 0 < |r| <= 11
    ensures forall i :: 0 <= i < |r| ==> r[i] != 0
  {
    Ascii(Name(t))
  }

  lemma NameBytesInjective(a: MessageType, b: MessageType)
    requires NameBytes(a) == NameBytes(b)
    ensures a == b
  {
    AsciiInjective(Name(a), Name(b));
  }

  /** Every type, in declaration order (the table `EnumString` matches against). */
  const ALL: seq<MessageType> :=
    [Version, VerAck, Ping, Addr, GetData, Tx, Block, GetBlocks, GetHeaders,
     Headers, Reject, MemPool, FeeFilter, SendHeaders, SendCmpct, WtxIdRelay, SendAddrV2]

  lemma AllTypesListed(t: MessageType)
    ensures t in ALL
  {
  }

  /** Looks a name up in a table of types: the first whose name is exactly
      `name`, if any. */
  function Lookup(name: seq<byte>, table: seq<MessageType>): (r: Option<MessageType>)
    ensures r.Some? ==> NameBytes(r.value) == name
  {
    if table == [] then None
    else if NameBytes(table[0]) == name then Some(table[0])
    else Lookup(name, table[1..])
  }

  /** A table that holds a type with the name finds some type. */
  lemma {:induction false} LookupComplete(name: seq<byte>, table: seq<MessageType>, t: MessageType)
    requires t in table && NameBytes(t) == name
    ensures Lookup(name, table).Some?
    decreases |table|
  {
    if NameBytes(table[0]) != name {
      assert t in table[1..];
      LookupComplete(name, table[1..], t);
    }
  }

  /** `str::parse::<MessageType>`: exact, case-sensitive match against the
      name table. */
  function FromName(name: seq<byte>): (r: Option<MessageType>)
    ensures r.Some? ==> NameBytes(r.value) == name
  {
    Lookup(name, ALL)
  }

  /** Every type is found by its own name. */
  lemma FromNameComplete(name: seq<byte>, t: MessageType)
    requires NameBytes(t) == name
    ensures FromName(name) == Some(t)
  {
    AllTypesListed(t);
    LookupComplete(name, ALL, t);
    NameBytesInjective(FromName(name).value, t);
  }

  /** The name table is matched exactly: a name is found if and only if
      some type has it. */
  lemma FromNameIff(name: seq<byte>)
    ensures FromName(name).Some? <==> exists t :: NameBytes(t) == name
  {
    if t :| NameBytes(t) == name {
      FromNameComplete(name, t);
    }
  }

  /** The wire field of a type: its name padded with zeros to 12 bytes. */
  function Field(t: MessageType): (r: seq<byte>)
    ensures |r| == SIZE
    ensures r[..|NameBytes(t)|] == NameBytes(t)
    ensures forall i :: |NameBytes(t)| <= i < SIZE ==> r[i] == 0
  {
    NameBytes(t) + Zeros(SIZE - |NameBytes(t)|)
  }

  /** `MessageType::serialize`: the name bytes, rejected when longer than the
      field, then padded in place with zeros. */
  method Serialize(t: MessageType) returns (r: Result<seq<byte>>)
    ensures r == Ok(Field(t))
  {
    var result := NameBytes(t);
    if |result| > SIZE {
      return Err(MessageTypeTooLong(|result|));
    }
    result := result + Zeros(SIZE - |result|);
    return Ok(result);
  }

  /** The number of zero bytes at the end of s. */
  function TrailingZeros(s: seq<byte>): (n: nat)
    ensures n <= |s|
    ensures forall i :: |s| - n <= i < |s| ==> s[i] == 0
    ensures n < |s| ==> s[|s| - 1 - n] != 0
  {
    if s == [] || s[|s| - 1] != 0 then 0
    else 1 + TrailingZeros(s[..|s| - 1])
  }

  /** `data.get(lo..hi)`: the slice when the range is in bounds. */
  function Get(data: seq<byte>, lo: int, hi: int): (r: Option<seq<byte>>)
    ensures r.Some? <==> 0 <= lo <= hi <= |data|
    ensures r.Some? ==> r.value == data[lo..hi]
  {
    if 0 <= lo <= hi <= |data| then Some(data[lo..hi]) else None
  }

  /** `MessageType::deserialize`: rejects more than 12 bytes, strips the
      trailing zeros and matches what remains against the name table. */
  function Deserialize(data: seq<byte>): (r: Result<MessageType>)
    ensures |data| > SIZE <==> r == Err(MessageTypeTooLong(|data|))
    ensures r != Err(Infallible)
  {
    if |data| > SIZE then Err(MessageTypeTooLong(|data|))
    else
      var zeroes := TrailingZeros(data);
      match Get(data, 0, |data| - zeroes)
      case Some(name) =>
        (match FromName(name)
         case Some(t) => Ok(t)
         case None => Err(UnknownType(name)))
      case None => Err(Infallible)
  }

  /** A field decodes to t exactly when it is t's name followed only by zero
      bytes (and is at most 12 bytes long). */
  predicate IsPaddedName(data: seq<byte>, t: MessageType) {
    && |data| <= SIZE
    && |NameBytes(t)| <= |data|
    && data[..|NameBytes(t)|] == NameBytes(t)
    && forall i :: |NameBytes(t)| <= i < |data| ==> data[i] == 0
  }

  lemma DeserializeIff(data: seq<byte>, t: MessageType)
    ensures Deserialize(data) == Ok(t) <==> IsPaddedName(data, t)
  {
    if Deserialize(data) == Ok(t) {
      DeserializeSound(data, t);
    }
    if IsPaddedName(data, t) {
      DeserializeComplete(data, t);
    }
  }

  lemma DeserializeSound(data: seq<byte>, t: MessageType)
    requires Deserialize(data) == Ok(t)
    ensures IsPaddedName(data, t)
  {
    var z := TrailingZeros(data);
    assert NameBytes(t) == data[..|data| - z];
  }

  lemma DeserializeComplete(data: seq<byte>, t: MessageType)
    requires IsPaddedName(data, t)
    ensures Deserialize(data) == Ok(t)
  {
    var n := NameBytes(t);
    var z := TrailingZeros(data);
    assert data[|n| - 1] == n[|n| - 1] != 0;
    assert z == |data| - |n|;
    assert data[..|data| - z] == n;
    FromNameComplete(n, t);
  }

  /** A field of at most 12 bytes whose stripped bytes name no type (which,
      by FromNameIff, is what None means) fails with those bytes as the
      unknown name. */
  lemma DeserializeUnknown(data: seq<byte>)
    requires |data| <= SIZE
    requires FromName(data[..|data| - TrailingZeros(data)]).None?
    ensures Deserialize(data) == Err(UnknownType(data[..|data| - TrailingZeros(data)]))
  {
    assert Get(data, 0, |data| - TrailingZeros(data)) == Some(data[..|data| - TrailingZeros(data)]);
  }

  /** Round trip: every type decodes from its own field. */
  lemma RoundTrip(t: MessageType)
    ensures Deserialize(Field(t)) == Ok(t)
  {
    DeserializeIff(Field(t), t);
  }

  /** The canonical example: `version` is "version" followed by five zero bytes. */
  lemma VersionField()
    ensures Field(Version) == [0x76, 0x65, 0x72, 0x73, 0x69, 0x6f, 0x6e, 0, 0, 0, 0, 0]
  {
  }
}
