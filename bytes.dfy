/** Byte-level building blocks shared by the codecs: the fixed-width integer
    types of the wire format, little- and big-endian integer encoding as the
    `byteorder` crate performs it, two's complement for the signed fields,
    ASCII text and the UTF-8 well-formedness rule that `String::from_utf8`
    enforces. */
module Bytes {

  type byte = x: int | 0 <= x < 0x100
  type u16 = x: int | 0 <= x < 0x1_0000
  type u32 = x: int | 0 <= x < 0x1_0000_0000
  type u64 = x: int | 0 <= x < 0x1_0000_0000_0000_0000
  type u128 = x: int | 0 <= x < 0x1_0000_0000_0000_0000_0000_0000_0000_0000
  type i32 = x: int | -0x8000_0000 <= x < 0x8000_0000
  type i64 = x: int | -0x8000_0000_0000_0000 <= x < 0x8000_0000_0000_0000

  /** 256^n: one more than the largest value that fits in n bytes. */
  function Pow256(n: nat): (p: int)
    ensures p > 0
  {
    if n == 0 then 1 else 256 * Pow256(n - 1)
  }

  lemma Pow256Widths()
    ensures Pow256(2) == 0x1_0000
    ensures Pow256(4) == 0x1_0000_0000
    ensures Pow256(8) == 0x1_0000_0000_0000_0000
    ensures Pow256(16) == 0x1_0000_0000_0000_0000_0000_0000_0000_0000
  {
  }

  function Zeros(n: nat): (r: seq<byte>)
    ensures |r| == n
    ensures forall i :: 0 <= i < n ==> r[i] == 0
  {
    seq(n, _ => 0)
  }

  /** A slice that lies inside a keeps its value when more bytes follow. */
  lemma SliceOfPrefix(a: seq<byte>, b: seq<byte>, i: nat, j: nat)
    requires i <= j <= |a|
    ensures (a + b)[i..j] == a[i..j]
  {
  }

  /** A slice of a suffix is a slice of the whole. */
  lemma SliceOfSuffix(d: seq<byte>, p: nat, i: nat, j: nat)
    requires p + j <= |d| && i <= j
    ensures d[p..][i..j] == d[p + i..p + j]
  {
  }

  /** Division by 256 undoes the step x = 256 * q + r of a positional
      encoding. */
  lemma DivMod256(q: nat, r: nat)
    requires r < 256
    ensures (256 * q + r) / 256 == q && (256 * q + r) % 256 == r
  {
  }

  // ---------------------------------------------------------------------
  // Little endian: least significant byte first.

  /** The n-byte little-endian encoding of x. */
  function LeBytes(x: nat, n: nat): (r: seq<byte>)
    requires x < Pow256(n)
    ensures |r| == n
  {
    if n == 0 then [] else [x % 256] + LeBytes(x / 256, n - 1)
  }

  /** The value of a little-endian byte string. */
  function LeValue(s: seq<byte>): (x: nat)
    ensures x < Pow256(|s|)
  {
    if s == [] then 0 else s[0] + 256 * LeValue(s[1..])
  }

  lemma {:induction false} LeValueOfBytes(x: nat, n: nat)
    requires x < Pow256(n)
    ensures LeValue(LeBytes(x, n)) == x
  {
    if n > 0 {
      var r := LeBytes(x, n);
      assert r[1..] == LeBytes(x / 256, n - 1);
      LeValueOfBytes(x / 256, n - 1);
    }
  }

  lemma {:induction false} LeBytesOfValue(s: seq<byte>)
    ensures LeBytes(LeValue(s), |s|) == s
  {
    if s != [] {
      DivMod256(LeValue(s[1..]), s[0]);
      LeBytesOfValue(s[1..]);
      assert LeBytes(LeValue(s), |s|) == [s[0]] + s[1..];
    }
  }

  // ---------------------------------------------------------------------
  // Big endian (network byte order): most significant byte first.

  /** The n-byte big-endian encoding of x. */
  function BeBytes(x: nat, n: nat): (r: seq<byte>)
    requires x < Pow256(n)
    ensures |r| == n
  {
    if n == 0 then [] else BeBytes(x / 256, n - 1) + [x % 256]
  }

  /** The value of a big-endian byte string. */
  function BeValue(s: seq<byte>): (x: nat)
    ensures x < Pow256(|s|)
  {
    if s == [] then 0 else 256 * BeValue(s[..|s| - 1]) + s[|s| - 1]
  }

  lemma {:induction false} BeValueOfBytes(x: nat, n: nat)
    requires x < Pow256(n)
    ensures BeValue(BeBytes(x, n)) == x
  {
    if n > 0 {
      var r := BeBytes(x, n);
      assert r[..n - 1] == BeBytes(x / 256, n - 1);
      BeValueOfBytes(x / 256, n - 1);
    }
  }

  lemma {:induction false} BeBytesOfValue(s: seq<byte>)
    ensures BeBytes(BeValue(s), |s|) == s
  {
    if s != [] {
      var init := s[..|s| - 1];
      DivMod256(BeValue(init), s[|s| - 1]);
      BeBytesOfValue(init);
      assert BeBytes(BeValue(s), |s|) == init + [s[|s| - 1]];
      assert init + [s[|s| - 1]] == s;
    }
  }

  // ---------------------------------------------------------------------
  // Two's complement for the signed fields (i32, i64).

  /** The n-byte two's complement bit pattern of x, read as unsigned. */
  function ToTwos(x: int, n: nat): (u: nat)
    requires 0 < n && -Pow256(n) / 2 <= x < Pow256(n) / 2
    ensures u < Pow256(n)
    ensures x >= 0 ==> u == x
    ensures x < 0 ==> u >= Pow256(n) / 2
  {
    if x < 0 then x + Pow256(n) else x
  }

  /** The signed value of an n-byte two's complement bit pattern. */
  function FromTwos(u: nat, n: nat): (x: int)
    requires 0 < n && u < Pow256(n)
    ensures -Pow256(n) / 2 <= x < Pow256(n) / 2
  {
    if u >= Pow256(n) / 2 then u - Pow256(n) else u
  }

  lemma TwosRoundTrip(x: int, n: nat)
    requires 0 < n && -Pow256(n) / 2 <= x < Pow256(n) / 2
    ensures FromTwos(ToTwos(x, n), n) == x
  {
    assert Pow256(n) == 256 * Pow256(n - 1);
  }

  // byteorder's write_* / read_* for the widths the wire format uses.

  function U16Be(x: u16): (r: seq<byte>)
    ensures |r| == 2
  {
    Pow256Widths();
    BeBytes(x, 2)
  }

  function U32Le(x: u32): (r: seq<byte>)
    ensures |r| == 4
  {
    Pow256Widths();
    LeBytes(x, 4)
  }

  function U64Le(x: u64): (r: seq<byte>)
    ensures |r| == 8
  {
    Pow256Widths();
    LeBytes(x, 8)
  }

  function U128Be(x: u128): (r: seq<byte>)
    ensures |r| == 16
  {
    Pow256Widths();
    BeBytes(x, 16)
  }

  function I32Le(x: i32): (r: seq<byte>)
    ensures |r| == 4
  {
    Pow256Widths();
    LeBytes(ToTwos(x, 4), 4)
  }

  function I64Le(x: i64): (r: seq<byte>)
    ensures |r| == 8
  {
    Pow256Widths();
    LeBytes(ToTwos(x, 8), 8)
  }

  function ReadU16Be(s: seq<byte>): u16
    requires |s| == 2
  {
    Pow256Widths();
    BeValue(s)
  }

  function ReadU32Le(s: seq<byte>): u32
    requires |s| == 4
  {
    Pow256Widths();
    LeValue(s)
  }

  function ReadU64Le(s: seq<byte>): u64
    requires |s| == 8
  {
    Pow256Widths();
    LeValue(s)
  }

  function ReadU128Be(s: seq<byte>): u128
    requires |s| == 16
  {
    Pow256Widths();
    BeValue(s)
  }

  function ReadI32Le(s: seq<byte>): i32
    requires |s| == 4
  {
    Pow256Widths();
    FromTwos(LeValue(s), 4)
  }

  function ReadI64Le(s: seq<byte>): i64
    requires |s| == 8
  {
    Pow256Widths();
    FromTwos(LeValue(s), 8)
  }

  /** Every fixed-width field reads back as the value that was written. */
  lemma FieldRoundTrips()
    ensures forall x: u16 :: ReadU16Be(U16Be(x)) == x
    ensures forall x: u32 :: ReadU32Le(U32Le(x)) == x
    ensures forall x: u64 :: ReadU64Le(U64Le(x)) == x
    ensures forall x: u128 :: ReadU128Be(U128Be(x)) == x
    ensures forall x: i32 :: ReadI32Le(I32Le(x)) == x
    ensures forall x: i64 :: ReadI64Le(I64Le(x)) == x
  {
    Pow256Widths();
    forall x: u16 ensures ReadU16Be(U16Be(x)) == x {
      BeValueOfBytes(x, 2);
    }
    forall x: u32 ensures ReadU32Le(U32Le(x)) == x {
      LeValueOfBytes(x, 4);
    }
    forall x: u64 ensures ReadU64Le(U64Le(x)) == x {
      LeValueOfBytes(x, 8);
    }
    forall x: u128 ensures ReadU128Be(U128Be(x)) == x {
      BeValueOfBytes(x, 16);
    }
    forall x: i32 ensures ReadI32Le(I32Le(x)) == x {
      LeValueOfBytes(ToTwos(x, 4), 4);
      TwosRoundTrip(x, 4);
    }
    forall x: i64 ensures ReadI64Le(I64Le(x)) == x {
      LeValueOfBytes(ToTwos(x, 8), 8);
      TwosRoundTrip(x, 8);
    }
  }

  // ---------------------------------------------------------------------
  // Text.

  predicate IsAscii(s: string) {
    forall i :: 0 <= i < |s| ==> s[i] as int < 128
  }

  /** The bytes of an ASCII string (its UTF-8 encoding). */
  function Ascii(s: string): (r: seq<byte>)
    requires IsAscii(s)
    ensures |r| == |s|
    ensures forall i :: 0 <= i < |s| ==> r[i] == s[i] as int < 128
  {
    seq(|s|, i requires 0 <= i < |s| => s[i] as int)
  }

  lemma AsciiInjective(s: string, t: string)
    requires IsAscii(s) && IsAscii(t) && Ascii(s) == Ascii(t)
    ensures s == t
  {
    assert |s| == |t|;
    forall i | 0 <= i < |s| ensures s[i] == t[i] {
      assert Ascii(s)[i] == Ascii(t)[i];
    }
  }

  predicate InRange(b: byte, lo: int, hi: int) {
    lo <= b <= hi
  }

  /** The length of the well-formed UTF-8 sequence that starts s, following
      table 3-7 of the Unicode standard (no overlong forms, no surrogates,
      nothing above U+10FFFF), or 0 if s does not start with one. */
  function Utf8SequenceLength(s: seq<byte>): (n: nat)
    ensures n <= |s| && n <= 4
    ensures s != [] && s[0] < 0x80 ==> n == 1
  {
    if s == [] then 0
    else if s[0] < 0x80 then 1
    else if InRange(s[0], 0xc2, 0xdf) then
      if |s| >= 2 && InRange(s[1], 0x80, 0xbf) then 2 else 0
    else if 0xe0 <= s[0] <= 0xef then
      var lo := if s[0] == 0xe0 then 0xa0 else 0x80;
      var hi := if s[0] == 0xed then 0x9f else 0xbf;
      if |s| >= 3 && InRange(s[1], lo, hi) && InRange(s[2], 0x80, 0xbf) then 3 else 0
    else if 0xf0 <= s[0] <= 0xf4 then
      var lo := if s[0] == 0xf0 then 0x90 else 0x80;
      var hi := if s[0] == 0xf4 then 0x8f else 0xbf;
      if |s| >= 4 && InRange(s[1], lo, hi) && InRange(s[2], 0x80, 0xbf) && InRange(s[3], 0x80, 0xbf)
      then 4 else 0
    else 0
  }

  /** s is a concatenation of well-formed UTF-8 sequences. */
  predicate ValidUtf8(s: seq<byte>)
    decreases |s|
  {
    s == [] || (Utf8SequenceLength(s) > 0 && ValidUtf8(s[Utf8SequenceLength(s)..]))
  }

  type Utf8 = s: seq<byte> | ValidUtf8(s) witness []

  lemma {:induction false} AsciiIsUtf8(s: seq<byte>)
    requires forall i :: 0 <= i < |s| ==> s[i] < 0x80
    ensures ValidUtf8(s)
  {
    if s != [] {
      AsciiIsUtf8(s[1..]);
    }
  }
}
