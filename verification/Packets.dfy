/** A packet of either direction: type, request id, payload, behind the length. */
module Packets {
  import opened Wire
  import opened Cursors
  import opened Framing

  function Body(tp: byte, id: u32, payload: bytes): (s: bytes)
    ensures |s| == 5 + |payload|
  {
    [tp] + (U32(id) + payload)
  }

  /** The whole packet of a request or a reply. */
  function Packet(tp: byte, id: u32, payload: bytes): (s: bytes)
    ensures |s| == 9 + |payload|
  {
    Frame(Body(tp, id, payload))
  }

  /** The size field says how many bytes follow it exactly when that number fits 32 bits. */
  lemma SizeFieldExact(tp: byte, id: u32, payload: bytes)
    ensures ReadU32(Packet(tp, id, payload)) == |Packet(tp, id, payload)| - 4
       <==> 5 + |payload| < TWO_32
  {
    var body := Body(tp, id, payload);
    hide Body, U32, ReadU32;
    ReadU32OfU32(Narrow(|body|), body);
  }

  lemma PacketIsHeaderAndPayload(tp: byte, id: u32, payload: bytes)
    ensures Packet(tp, id, payload)
         == (U32(Narrow(5 + |payload|)) + ([tp] + U32(id))) + payload
  {
    AssocHeader(U32(Narrow(5 + |payload|)), [tp], U32(id), payload);
  }

  lemma AssocHeader(a: bytes, b: bytes, c: bytes, d: bytes)
    ensures a + (b + (c + d)) == (a + (b + c)) + d
  {
  }

  function IdIn(body: bytes): (id: u32)
    requires |body| >= 5
  {
    ReadU32(body[1..])
  }

  lemma BodyParts(tp: byte, id: u32, payload: bytes)
    ensures var body := Body(tp, id, payload);
      |body| >= 5 && body[0] == tp && IdIn(body) == id && body[5..] == payload
  {
    var body := Body(tp, id, payload);
    ReadU32OfU32(id, payload);
    assert body[1..] == U32(id) + payload;
    hide U32, ReadU32;
    assert body[5..] == body[1..][4..];
  }

  lemma BodyFrom(body: bytes)
    requires |body| >= 5
    ensures body == Body(body[0], IdIn(body), body[5..])
  {
    U32OfReadU32(body[1..]);
    assert body[1..][..4] == body[1..5];
    hide U32, ReadU32;
    assert body == [body[0]] + (body[1..5] + body[5..]);
  }

  /** take_u8 and take_u32 at the front of a packet. */
  lemma TakeHeader(body: bytes)
    ensures var (tp, c1) := Cursor(body, NoError).TakeU8();
      var (id, c2) := c1.TakeU32();
      if |body| < 5 then c2.ec == BAD
      else tp == body[0] && id == IdIn(body) && c2 == Cursor(body[5..], NoError)
  {
    if |body| >= 5 {
      assert body[1..][4..] == body[5..];
    }
    hide ReadU32;
  }
}
