/** Scalars and strings as they travel on the wire: the big-endian integers and
    length-prefixed strings of section 5 of RFC 4251, with the 32-bit narrowing that the
    encoders of src/sftp.cpp perform on every length. */
module Wire {
  const TWO_32: int := 0x1_0000_0000
  const TWO_64: int := 0x1_0000_0000_0000_0000

  type byte = b: int | 0 <= b < 0x100
  type u32 = n: int | 0 <= n < 0x1_0000_0000
  type u64 = n: int | 0 <= n < 0x1_0000_0000_0000_0000
  type bytes = seq<byte>

  /** The value that a size_t takes when it is passed as a std::uint32_t. */
  function Narrow(n: nat): (r: u32) {
    n % TWO_32
  }

  function U32(n: u32): (s: bytes)
    ensures |s| == 4
  {
    [n / 0x100_0000, n / 0x1_0000 % 0x100, n / 0x100 % 0x100, n % 0x100]
  }

  function Join(a: int, b: int, c: int, d: int): (n: int) {
    a * 0x100_0000 + b * 0x1_0000 + c * 0x100 + d
  }

  /** ntohl of the first four bytes. */
  function ReadU32(s: bytes): (n: u32)
    requires 4 <= |s|
  {
    Join(s[0], s[1], s[2], s[3])
  }

  function U64(n: u64): (s: bytes)
    ensures |s| == 8
  {
    U32(n / TWO_32) + U32(n % TWO_32)
  }

  function ReadU64(s: bytes): (n: u64)
    requires 8 <= |s|
  {
    ReadU32(s) * TWO_32 + ReadU32(s[4..])
  }

  function Str(s: bytes): (r: bytes)
    ensures |r| == 4 + |s|
  {
    U32(Narrow(|s|)) + s
  }

  lemma ReadU32OfU32(n: u32, tail: bytes)
    ensures ReadU32(U32(n) + tail) == n
  {
    var s := U32(n) + tail;
    assert s[0] == n / 0x100_0000 && s[1] == n / 0x1_0000 % 0x100;
    assert s[2] == n / 0x100 % 0x100 && s[3] == n % 0x100;
    JoinDigits(n);
  }

  lemma JoinDigits(n: u32)
    ensures Join(n / 0x100_0000, n / 0x1_0000 % 0x100, n / 0x100 % 0x100, n % 0x100) == n
  {
    var c: int := n / 0x100;
    var b := c / 0x100;
    var a := b / 0x100;
    assert n / 0x1_0000 == b && n / 0x100_0000 == a;
  }

  lemma DigitsOfJoin(a: byte, b: byte, c: byte, d: byte)
    ensures var n := Join(a, b, c, d);
      n / 0x100_0000 == a && n / 0x1_0000 % 0x100 == b && n / 0x100 % 0x100 == c && n % 0x100 == d
  {
    var n := Join(a, b, c, d);
    var x: int := a;
    assert n / 0x100_0000 == a;
    assert n / 0x1_0000 == x * 0x100 + b;
    assert n / 0x100 == x * 0x1_0000 + (b as int) * 0x100 + c;
  }

  lemma ReadU64OfU64(n: u64, tail: bytes)
    ensures ReadU64(U64(n) + tail) == n
  {
    ReadU32OfU32(n / TWO_32, U32(n % TWO_32) + tail);
    ReadU32OfU32(n % TWO_32, tail);
    assert U64(n) + tail == U32(n / TWO_32) + (U32(n % TWO_32) + tail);
    assert (U64(n) + tail)[4..] == U32(n % TWO_32) + tail;
  }

  /** Only the first four bytes matter. */
  lemma ReadU32Prefix(s: bytes, tail: bytes)
    requires 4 <= |s|
    ensures ReadU32(s + tail) == ReadU32(s)
  {
  }

  /** The four bytes are determined by the value they hold. */
  lemma U32OfReadU32(s: bytes)
    requires 4 <= |s|
    ensures U32(ReadU32(s)) == s[..4]
  {
    DigitsOfJoin(s[0], s[1], s[2], s[3]);
  }

  function Concat(parts: seq<bytes>): (r: bytes) {
    if parts == [] then [] else parts[0] + Concat(parts[1..])
  }

  lemma {:induction false} ConcatAppend(parts: seq<bytes>, more: seq<bytes>)
    ensures Concat(parts + more) == Concat(parts) + Concat(more)
  {
    if parts == [] {
      assert parts + more == more;
    } else {
      assert (parts + more)[1..] == parts[1..] + more;
      ConcatAppend(parts[1..], more);
    }
  }

  lemma ConcatSnoc(parts: seq<bytes>, last: bytes)
    ensures Concat(parts + [last]) == Concat(parts) + last
  {
    ConcatAppend(parts, [last]);
    assert Concat([last]) == last + Concat([]);
  }
}
