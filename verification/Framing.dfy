/** Packet framing, section 3 of draft-ietf-secsh-filexfer-02: match_packet, and the
    "read until matched, slice, consume" discipline built on it. */
module Framing {
  import opened Wire

  datatype Option<+T> = None | Some(value: T)

  /** match_packet: the number of bytes of the first packet, or npos. The addition is done in
      32 bits, so the four largest length fields wrap to a match of fewer than four bytes. */
  function MatchPacket(data: bytes): (r: Option<nat>)
    ensures r.Some? ==> 4 <= |data| && r.value <= |data|
  {
    if |data| < 4 then None
    else
      var total := Narrow(ReadU32(data) + 4);
      if |data| >= total then Some(total) else None
  }

  function Frame(body: bytes): (r: bytes)
    ensures |r| == 4 + |body|
  {
    U32(Narrow(|body|)) + body
  }

  /** Bodies whose length field neither narrows nor makes the receiver's sum wrap. */
  predicate WellSized(body: bytes) {
    |body| + 4 < TWO_32
  }

  /** A match does not change when more data arrives. */
  lemma MatchStable(data: bytes, more: bytes)
    requires MatchPacket(data).Some?
    ensures MatchPacket(data + more) == MatchPacket(data)
  {
    ReadU32Prefix(data, more);
  }

  lemma MatchFrame(body: bytes, tail: bytes)
    requires WellSized(body)
    ensures MatchPacket(Frame(body) + tail) == Some(4 + |body|)
    ensures (Frame(body) + tail)[4..4 + |body|] == body
    ensures (Frame(body) + tail)[4 + |body|..] == tail
  {
    hide U32, ReadU32, MatchPacket;
    var data := Frame(body) + tail;
    assert data == U32(|body|) + (body + tail);
    ReadU32OfU32(|body|, body + tail);
    MatchOf(data, |body|);
    hide Frame;
    FrameSlices(U32(|body|), body, tail);
  }

  lemma MatchOf(data: bytes, n: u32)
    requires 4 + n <= |data| && ReadU32(data) == n && 4 + n < TWO_32
    ensures MatchPacket(data) == Some(4 + n)
  {
    hide ReadU32;
  }

  lemma FrameSlices(size: bytes, body: bytes, tail: bytes)
    requires |size| == 4
    ensures (size + (body + tail))[4..4 + |body|] == body
    ensures (size + (body + tail))[4 + |body|..] == tail
  {
  }

  /** A proper prefix of a frame is never matched. */
  lemma PrefixUnmatched(body: bytes, n: nat)
    requires WellSized(body) && n < 4 + |body|
    ensures MatchPacket(Frame(body)[..n]) == None
  {
    hide ReadU32, U32;
    if n >= 4 {
      ReadU32Prefix(Frame(body)[..n], Frame(body)[n..]);
      assert Frame(body)[..n] + Frame(body)[n..] == Frame(body);
      ReadU32OfU32(|body|, body);
    }
  }

  /** What a match of four bytes or more found is a well-sized frame. */
  lemma MatchIsFrame(data: bytes)
    requires MatchPacket(data).Some? && MatchPacket(data).value >= 4
    ensures var n := MatchPacket(data).value;
      WellSized(data[4..n]) && Frame(data[4..n]) == data[..n]
  {
    hide ReadU32, U32;
    var n := MatchPacket(data).value;
    U32OfReadU32(data);
    assert data[..n] == data[..4] + data[4..n];
  }

  // ----- the stream as a whole

  /** Bodies of the packets in a byte stream, and the bytes behind the last whole packet.
      A length field that wraps stops the reader where it stands. */
  datatype Parsed = Parsed(bodies: seq<bytes>, left: bytes)

  function Split(data: bytes): (r: Parsed)
    decreases |data|
  {
    match MatchPacket(data)
    case Some(n) =>
      if n < 4 then Parsed([], data)
      else
        var r := Split(data[n..]);
        Parsed([data[4..n]] + r.bodies, r.left)
    case None => Parsed([], data)
  }

  lemma SplitStep(data: bytes, n: nat)
    requires MatchPacket(data) == Some(n) && n >= 4
    ensures Split(data) == Parsed([data[4..n]] + Split(data[n..]).bodies, Split(data[n..]).left)
  {
    hide MatchPacket;
  }

  function Frames(bodies: seq<bytes>): (r: bytes) {
    if bodies == [] then [] else Frame(bodies[0]) + Frames(bodies[1..])
  }

  lemma FramesCons(body: bytes, rest: seq<bytes>)
    ensures Frames([body] + rest) == Frame(body) + Frames(rest)
  {
    assert ([body] + rest)[1..] == rest;
  }

  lemma {:induction false} FramesAppend(a: seq<bytes>, b: seq<bytes>)
    ensures Frames(a + b) == Frames(a) + Frames(b)
  {
    hide Frame;
    if a == [] {
      assert a + b == b;
    } else {
      assert (a + b)[1..] == a[1..] + b;
      FramesAppend(a[1..], b);
    }
  }

  /** Conservation: no byte is lost, none is invented. */
  lemma {:induction false} SplitConserves(data: bytes)
    ensures Frames(Split(data).bodies) + Split(data).left == data
    decreases |data|
  {
    hide MatchPacket, Frame, Split, Frames;
    var m := MatchPacket(data);
    if m.Some? && m.value >= 4 {
      var n := m.value;
      MatchIsFrame(data);
      SplitStep(data, n);
      var r := Split(data[n..]);
      SplitConserves(data[n..]);
      FramesCons(data[4..n], r.bodies);
      Regroup(data[..n], Frames(r.bodies), r.left);
      assert data[..n] + data[n..] == data;
    } else {
      SplitEnd(data);
    }
  }

  lemma SplitEnd(data: bytes)
    requires MatchPacket(data).Some? ==> MatchPacket(data).value < 4
    ensures Split(data) == Parsed([], data) && Frames([]) + data == data
  {
    hide MatchPacket;
    assert Frames([]) + data == data;
  }

  lemma Regroup(a: bytes, b: bytes, c: bytes)
    ensures (a + b) + c == a + (b + c)
  {
  }

  /** Uniqueness: a stream of well-sized frames is cut back into exactly those frames. */
  lemma {:induction false} SplitFrames(bodies: seq<bytes>, left: bytes)
    requires forall b <- bodies :: WellSized(b)
    ensures Split(Frames(bodies) + left)
         == Parsed(bodies + Split(left).bodies, Split(left).left)
  {
    hide MatchPacket, Frame, Split;
    if bodies == [] {
      assert Frames(bodies) + left == left;
    } else {
      var b, rest := bodies[0], bodies[1..];
      var tail := Frames(rest) + left;
      SplitFrames(rest, left);
      MatchFrame(b, tail);
      SplitStep(Frame(b) + tail, 4 + |b|);
      hide WellSized;
      assert Frames(bodies) + left == Frame(b) + tail;
      assert [b] + (rest + Split(left).bodies) == bodies + Split(left).bodies;
    }
  }

  /** Splitting may be resumed from the leftover. */
  lemma {:induction false} SplitResumes(data: bytes, more: bytes)
    ensures Split(data + more)
         == Parsed(Split(data).bodies + Split(Split(data).left + more).bodies,
                   Split(Split(data).left + more).left)
    decreases |data|
  {
    hide MatchPacket;
    var m := MatchPacket(data);
    if m.Some? {
      var n := m.value;
      MatchStable(data, more);
      if n >= 4 {
        SplitResumes(data[n..], more);
        assert (data + more)[4..n] == data[4..n];
        assert (data + more)[n..] == data[n..] + more;
      }
    }
  }

  // ----- reading packets from a chunked stream

  /** read_until: buffer and unread chunks once a packet is matched or the stream has ended. */
  function Fill(buffer: bytes, chunks: seq<bytes>): (r: (bytes, seq<bytes>))
    ensures MatchPacket(r.0).Some? || r.1 == []
    decreases |chunks|
  {
    if MatchPacket(buffer).Some? || chunks == [] then (buffer, chunks)
    else Fill(buffer + chunks[0], chunks[1..])
  }

  lemma {:induction false} FillConserves(buffer: bytes, chunks: seq<bytes>)
    ensures var (b, c) := Fill(buffer, chunks); b + Concat(c) == buffer + Concat(chunks)
    decreases |chunks|
  {
    hide MatchPacket;
    if MatchPacket(buffer) == None && chunks != [] {
      FillConserves(buffer + chunks[0], chunks[1..]);
      Regroup(buffer, chunks[0], Concat(chunks[1..]));
    }
  }

  /** One round: the body, the buffer after the consume, and the chunks not read yet; None when
      the stream ends, or the length field wraps, first. */
  datatype Round = Round(body: bytes, buffer: bytes, chunks: seq<bytes>)

  function ReadRound(buffer: bytes, chunks: seq<bytes>): (r: Option<Round>) {
    var (b, c) := Fill(buffer, chunks);
    match MatchPacket(b)
    case Some(n) => if n < 4 then None else Some(Round(b[4..n], b[n..], c))
    case None => None
  }

  /** All rounds, until one fails. */
  function ReadAll(buffer: bytes, chunks: seq<bytes>): (r: Parsed)
    decreases |buffer| + |Concat(chunks)|
  {
    match ReadRound(buffer, chunks)
    case None => Parsed([], buffer + Concat(chunks))
    case Some(round) =>
      RoundConsumes(buffer, chunks);
      var r := ReadAll(round.buffer, round.chunks);
      Parsed([round.body] + r.bodies, r.left)
  }

  /** A successful round takes exactly one frame off the front of the bytes still to come. */
  lemma RoundConsumes(buffer: bytes, chunks: seq<bytes>)
    ensures match ReadRound(buffer, chunks)
      case Some(r) =>
        && MatchPacket(buffer + Concat(chunks)) == Some(4 + |r.body|)
        && (buffer + Concat(chunks))[4..4 + |r.body|] == r.body
        && (buffer + Concat(chunks))[4 + |r.body|..] == r.buffer + Concat(r.chunks)
        && |r.buffer| + |Concat(r.chunks)| < |buffer| + |Concat(chunks)|
      case None =>
        Split(buffer + Concat(chunks)) == Parsed([], buffer + Concat(chunks))
  {
    hide MatchPacket, Split, Fill;
    FillConserves(buffer, chunks);
    var (b, c) := Fill(buffer, chunks);
    var all, m := buffer + Concat(chunks), MatchPacket(b);
    if m.Some? {
      MatchStable(b, Concat(c));
      if m.value >= 4 {
        assert all[4..m.value] == b[4..m.value];
        assert all[m.value..] == b[m.value..] + Concat(c);
      } else {
        SplitEnd(all);
      }
    } else {
      assert b + [] == b;
      SplitEnd(all);
    }
  }

  /** Framing does not depend on chunking: however the stream is cut into reads, and whatever
      is already buffered, the packets and the bytes left over are those of the whole. */
  lemma {:induction false} ChunkingIrrelevant(buffer: bytes, chunks: seq<bytes>)
    ensures ReadAll(buffer, chunks) == Split(buffer + Concat(chunks))
    decreases |buffer| + |Concat(chunks)|
  {
    RoundConsumes(buffer, chunks);
    var m := ReadRound(buffer, chunks);
    hide MatchPacket, ReadRound, Concat;
    if m.Some? {
      ChunkingIrrelevant(m.value.buffer, m.value.chunks);
    }
  }

  /** The buffer of a session, filled by read_until and shortened by consume, and the stream. */
  class PacketReader {
    var buffer: bytes
    var chunks: seq<bytes>

    constructor (buffer: bytes, chunks: seq<bytes>)
      ensures this.buffer == buffer && this.chunks == chunks
    {
      this.buffer := buffer;
      this.chunks := chunks;
    }

    method ReadUntil()
      modifies this
      ensures (buffer, chunks) == Fill(old(buffer), old(chunks))
    {
      hide MatchPacket;
      while MatchPacket(buffer) == None && chunks != []
        invariant Fill(buffer, chunks) == Fill(old(buffer), old(chunks))
        decreases |chunks|
      {
        buffer, chunks := buffer + chunks[0], chunks[1..];
      }
    }

    /** read_until, the slice of the body, and the consume. */
    method ReadOne() returns (r: Option<bytes>)
      modifies this
      ensures match ReadRound(old(buffer), old(chunks))
        case Some(round) => r == Some(round.body) && buffer == round.buffer && chunks == round.chunks
        case None => r == None && buffer + Concat(chunks) == old(buffer + Concat(chunks))
    {
      hide MatchPacket, Fill, Concat;
      FillConserves(buffer, chunks);
      ReadUntil();
      var m := MatchPacket(buffer);
      if m == None || m.value < 4 {
        return None;
      }
      r := Some(buffer[4..m.value]);
      buffer := buffer[m.value..];
    }
  }
}
