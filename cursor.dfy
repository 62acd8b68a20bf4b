/** `std::io::Cursor` over a byte slice, together with the `byteorder`
    `ReadBytesExt` reads the decoders call on it. Every read either takes the
    next bytes and advances the position, or fails with an I/O error when too
    few bytes remain (and, as the standard library does, leaves the cursor at
    the end). */
module Io {
  import opened Bytes
  import opened SerdeBitcoin

  class Cursor {
    const data: seq<byte>
    /** The position of the next byte to read; it may lie past the end. */
    var pos: nat

    constructor (data: seq<byte>)
      ensures this.data == data && pos == 0
    {
      this.data := data;
      pos := 0;
    }

    /** `read_exact` into an n-byte buffer. */
    method ReadExact(n: nat) returns (r: Result<seq<byte>>)
      modifies this
      ensures old(pos) + n <= |data| ==> r == Ok(data[old(pos)..old(pos) + n]) && pos == old(pos) + n
      ensures old(pos) + n > |data| ==> r == Err(IoError) && pos == |data|
    {
      if pos + n > |data| {
        pos := |data|;
        return Err(IoError);
      }
      r := Ok(data[pos..pos + n]);
      pos := pos + n;
    }

    method ReadU8() returns (r: Result<byte>)
      modifies this
      ensures old(pos) + 1 <= |data| ==> r == Ok(data[old(pos)]) && pos == old(pos) + 1
      ensures old(pos) + 1 > |data| ==> r == Err(IoError)
    {
      var b :- ReadExact(1);
      return Ok(b[0]);
    }

    method ReadU16Be() returns (r: Result<u16>)
      modifies this
      ensures old(pos) + 2 <= |data| ==> r == Ok(Bytes.ReadU16Be(data[old(pos)..old(pos) + 2])) && pos == old(pos) + 2
      ensures old(pos) + 2 > |data| ==> r == Err(IoError)
    {
      var b :- ReadExact(2);
      return Ok(Bytes.ReadU16Be(b));
    }

    method ReadU32Le() returns (r: Result<u32>)
      modifies this
      ensures old(pos) + 4 <= |data| ==> r == Ok(Bytes.ReadU32Le(data[old(pos)..old(pos) + 4])) && pos == old(pos) + 4
      ensures old(pos) + 4 > |data| ==> r == Err(IoError)
    {
      var b :- ReadExact(4);
      return Ok(Bytes.ReadU32Le(b));
    }

    method ReadI32Le() returns (r: Result<i32>)
      modifies this
      ensures old(pos) + 4 <= |data| ==> r == Ok(Bytes.ReadI32Le(data[old(pos)..old(pos) + 4])) && pos == old(pos) + 4
      ensures old(pos) + 4 > |data| ==> r == Err(IoError)
    {
      var b :- ReadExact(4);
      return Ok(Bytes.ReadI32Le(b));
    }

    method ReadU64Le() returns (r: Result<u64>)
      modifies this
      ensures old(pos) + 8 <= |data| ==> r == Ok(Bytes.ReadU64Le(data[old(pos)..old(pos) + 8])) && pos == old(pos) + 8
      ensures old(pos) + 8 > |data| ==> r == Err(IoError)
    {
      var b :- ReadExact(8);
      return Ok(Bytes.ReadU64Le(b));
    }

    method ReadI64Le() returns (r: Result<i64>)
      modifies this
      ensures old(pos) + 8 <= |data| ==> r == Ok(Bytes.ReadI64Le(data[old(pos)..old(pos) + 8])) && pos == old(pos) + 8
      ensures old(pos) + 8 > |data| ==> r == Err(IoError)
    {
      var b :- ReadExact(8);
      return Ok(Bytes.ReadI64Le(b));
    }

    method ReadU128Be() returns (r: Result<u128>)
      modifies this
      ensures old(pos) + 16 <= |data| ==> r == Ok(Bytes.ReadU128Be(data[old(pos)..old(pos) + 16])) && pos == old(pos) + 16
      ensures old(pos) + 16 > |data| ==> r == Err(IoError)
    {
      var b :- ReadExact(16);
      return Ok(Bytes.ReadU128Be(b));
    }
  }
}
