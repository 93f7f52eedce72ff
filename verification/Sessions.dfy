/** session::read_one_ in place: the session's buffer, the stream behind it, and the response
    queue. Its effect on the queue is the dispatch step of the multiplexer. */
module Sessions {
  import opened Wire
  import opened Cursors
  import opened Framing
  import opened Packets
  import opened ResponseQueues
  import opened ClientMux

  class Session {
    const reader: PacketReader
    const queue: ResponseQueue

    constructor (reader: PacketReader, queue: ResponseQueue)
      ensures this.reader == reader && this.queue == queue
    {
      this.reader, this.queue := reader, queue;
    }

    /** The stream's end cancels every reachable record. A packet without room for an id is an
        error, stays in the buffer and completes nothing. Any other packet goes to the first
        record with its id, whose log alone grows, and its bytes leave the buffer. */
    method ReadOne(end: Error) returns (ec: Error)
      requires queue.Valid() && end.Failed()
      modifies reader, queue`first, queue`last, queue`nodes, queue.nodes`log
      ensures queue.Valid()
      ensures var (buf, rest) := Fill(old(reader.buffer), old(reader.chunks));
        match MatchPacket(buf)
        case None =>
          && ec == end && reader.buffer == buf && reader.chunks == rest && queue.View() == Queue([], false)
          && forall r <- old(queue.nodes) :: r.log == old(r.log) + [Completion(end, 0, [])]
        case Some(n) =>
          if n < 9 then
            && ec == BAD && reader.buffer == buf && reader.chunks == rest && queue.View() == old(queue.View())
            && forall r <- old(queue.nodes) :: r.log == old(r.log)
          else
            var body := buf[4..n];
            && ec == NoError && reader.buffer == buf[n..] && reader.chunks == rest
            && (match FindId(Ids(old(queue.nodes)), IdIn(body))
                case None => queue.View() == old(queue.View()) && forall r <- queue.nodes :: r.log == old(r.log)
                case Some(k) =>
                  && queue.View() == CompleteAt(old(queue.View()), k)
                  && forall r <- queue.nodes ::
                       r.log == old(r.log) +
                         if r == queue.nodes[k] then [Completion(NoError, body[0], body[5..])] else [])
    {
      hide FindId, Ids, IdIn, Fill, MatchPacket;
      reader.ReadUntil();
      var m := MatchPacket(reader.buffer);
      if m == None {
        queue.CancelAll(end);
        return end;
      }
      ec := DispatchMatched(if m.value < 4 then [] else reader.buffer[4..m.value]);
      if !ec.Failed() {
        reader.buffer := reader.buffer[m.value..];
      }
    }

    /** Type and id off the front of the packet, then the record with the id. */
    method DispatchMatched(body: bytes) returns (ec: Error)
      requires queue.Valid()
      modifies queue`last, queue.nodes`log
      ensures queue.Valid() && queue.nodes == old(queue.nodes) && ec == (if |body| < 5 then BAD else NoError)
      ensures |body| < 5 ==> queue.View() == old(queue.View()) && forall r <- queue.nodes :: r.log == old(r.log)
      ensures |body| >= 5 ==>
        match FindId(Ids(old(queue.nodes)), IdIn(body))
        case None => queue.View() == old(queue.View()) && forall r <- queue.nodes :: r.log == old(r.log)
        case Some(k) =>
          && queue.View() == CompleteAt(old(queue.View()), k)
          && forall r <- queue.nodes ::
               r.log == old(r.log) + if r == queue.nodes[k] then [Completion(NoError, body[0], body[5..])] else []
    {
      hide FindId, Ids, IdIn, Cursor.TakeU8, Cursor.TakeU32;
      var cb := new ConstBuffer(body, NoError);
      var tp := cb.TakeU8();
      var id := cb.TakeU32();
      ec := cb.ec;
      TakeHeader(body);
      if ec.Failed() {
        return;
      }
      var found := queue.Complete(id, Completion(ec, tp, cb.rest));
    }
  }
}
