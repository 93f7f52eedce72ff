/** The content of a file under positioned reads and writes. */
module Files {
  import opened Wire

  function Min(a: int, b: int): (m: int) {
    if a < b then a else b
  }

  function Max(a: int, b: int): (m: int) {
    if a < b then b else a
  }

  function Zeros(n: nat): (s: bytes)
    ensures |s| == n && forall i | 0 <= i < n :: s[i] == 0
  {
    seq(n, i => 0)
  }

  /** The byte at a position, a hole reading as zero. */
  function ByteAt(f: bytes, i: nat): (b: byte) {
    if i < |f| then f[i] else 0
  }

  /** pread: what is there, at most len bytes. */
  function ReadAt(f: bytes, offset: nat, len: nat): (s: bytes)
    ensures |s| == Max(0, Min(len, |f| - offset))
  {
    if offset >= |f| then [] else f[offset..Min(offset + len, |f|)]
  }

  /** pwrite: a gap before the offset is filled with zeros, an empty write changes nothing. */
  function WriteAt(f: bytes, offset: nat, data: bytes): (g: bytes)
    ensures |g| == if data == [] then |f| else Max(|f|, offset + |data|)
    ensures forall i: nat :: ByteAt(g, i) == if offset <= i < offset + |data| then data[i - offset] else ByteAt(f, i)
  {
    if data == [] then f
    else
      var padded := if |f| < offset then f + Zeros(offset - |f|) else f;
      padded[..offset] + data + (if offset + |data| < |padded| then padded[offset + |data|..] else [])
  }

  /** Length and bytes determine the content. */
  lemma SameContent(f: bytes, g: bytes)
    requires |f| == |g| && forall i: nat :: ByteAt(f, i) == ByteAt(g, i)
    ensures f == g
  {
    forall i | 0 <= i < |f|
      ensures f[i] == g[i]
    {
      assert ByteAt(f, i) == ByteAt(g, i);
    }
  }

  /** A transfer may be cut anywhere. */
  lemma ReadSplit(f: bytes, offset: nat, a: nat, b: nat)
    ensures ReadAt(f, offset, a + b) == ReadAt(f, offset, a) + ReadAt(f, offset + a, b)
  {
  }

  lemma WriteSplit(f: bytes, offset: nat, a: bytes, b: bytes)
    ensures WriteAt(WriteAt(f, offset, a), offset + |a|, b) == WriteAt(f, offset, a + b)
  {
    var g, h := WriteAt(WriteAt(f, offset, a), offset + |a|, b), WriteAt(f, offset, a + b);
    hide WriteAt;
    SameContent(g, h);
  }
}
