/** Client and server together: any number of coroutines of one session, any number of workers of
    one server, and the two byte streams between them. A step of the system is a step of one
    coroutine or of one worker; what one side reads is what the other has written so far.

    Requests are issued in any number and at any time, coroutines are cancelled, the client's
    reads fail, workers give up: whatever happens, what a coroutine is told is the result that
    the backend produced for its own request. (EndToEndLiveness shows when it is told at all.) */
module EndToEnd {
  import opened Wire
  import opened Cursors
  import opened Framing
  import opened Packets
  import opened Requests
  import opened Dispatch
  import opened Replies
  import opened Attrs
  import opened Completions
  import opened ResponseQueues
  import H = RequestHistory
  import M = ClientMux
  import P = ServerPool

  /** `reqs` lists what the coroutines have asked for, in the order of their record's issue. */
  datatype Sys = Sys(m: M.Mux, p: P.Pool, reqs: seq<Request>)

  datatype Act = Ask(r: Request) | Client(move: M.Act) | Worker(work: P.Act)

  /** Any step but a failed write, or a failed read of a worker: each of these tears a stream. */
  ghost predicate Enabled(s: Sys, t: Act) {
    match t
    case Ask(r) => Length(r) + 4 < TWO_32
    case Client(a) =>
      M.Enabled(s.m, a) && !a.Issue? && !a.FailWrite? && (a.Receive? ==> s.m.got + a.chunk <= s.p.out)
    case Worker(a) =>
      && P.Enabled(s.p, a) && !a.FailRead? && !a.FailWrite?
      && (a.Receive? ==> s.p.taken + a.chunk <= s.m.out)
  }

  /** The backend's result is sent as a packet: it is not the data of a READ, and it fits. */
  predicate Readable(t: Act) {
    t.Worker? && t.work.Serve? ==> Fits(t.work.result) && !t.work.result.RData?
  }

  function Issued(s: Sys, r: Request): (frame: bytes) {
    Packet(OpCode(r), H.IdOf(|s.reqs|), Payload(r))
  }

  /** The list holds records of calls only, in every state that can be reached. */
  predicate Listed(m: M.Mux) {
    forall n <- m.h.queue.chain :: n < |m.calls|
  }

  function Do(s: Sys, t: Act): (r: Sys)
    requires match t case Ask(_) => true case Client(a) => M.Enabled(s.m, a) case Worker(a) => a.w < |s.p.workers|
  {
    match t
    case Ask(r) => if Listed(s.m) then Sys(M.Apply(s.m, M.Issue(Issued(s, r))), s.p, s.reqs + [r]) else s
    case Client(a) => if Listed(s.m) then s.(m := M.Apply(s.m, a)) else s
    case Worker(a) => s.(p := P.Apply(s.p, a))
  }

  function Start(workers: nat): (s: Sys) {
    Sys(M.START, P.Start(workers), [])
  }

  // ----- from the coroutines to the workers

  /** The packet of call c, without its length. */
  function Asked(reqs: seq<Request>, c: nat): (body: bytes) {
    if c < |reqs| then Body(OpCode(reqs[c]), H.IdOf(c), Payload(reqs[c])) else []
  }

  function AskedAll(reqs: seq<Request>, cs: seq<nat>): (bodies: seq<bytes>)
    ensures |bodies| == |cs| && forall i | 0 <= i < |cs| :: bodies[i] == Asked(reqs, cs[i])
  {
    seq(|cs|, i requires 0 <= i < |cs| => Asked(reqs, cs[i]))
  }

  /** The call whose frame is written but whose coroutine still holds the mutex. */
  function Last(m: M.Mux): (cs: seq<nat>) {
    match m.sender
    case Some(c) => if c < |m.calls| && m.calls[c].pc == M.Sending(|m.calls[c].frame|) then [c] else []
    case None => []
  }

  /** The calls in the order of their frames on the stream. */
  function Order(m: M.Mux): (cs: seq<nat>) {
    m.sent + Last(m)
  }

  function Who(m: M.Mux, k: nat): (c: nat) {
    if k < |Order(m)| then Order(m)[k] else 0
  }

  ghost predicate FramesAsked(m: M.Mux, reqs: seq<Request>) {
    && |reqs| == |m.calls|
    && forall c | 0 <= c < |reqs| :: m.calls[c].frame == Frame(Asked(reqs, c)) && WellSized(Asked(reqs, c))
  }

  /** The workers claim the packets of the calls, in the order in which they were written. */
  ghost predicate Claims(s: Sys) {
    && |s.p.bodies| <= |Order(s.m)|
    && forall k | 0 <= k < |s.p.bodies| :: s.p.bodies[k] == Asked(s.reqs, Who(s.m, k))
  }

  lemma {:induction false} ConcatIsFrames(frames: seq<bytes>, bodies: seq<bytes>)
    requires |frames| == |bodies| && forall i | 0 <= i < |frames| :: frames[i] == Frame(bodies[i])
    ensures Concat(frames) == Frames(bodies)
  {
    hide Frame;
    if frames != [] {
      ConcatIsFrames(frames[1..], bodies[1..]);
    }
  }

  /** What the session has written is the packets in that order and a proper prefix of one more. */
  lemma WrittenIs(s: Sys) returns (partial: bytes)
    requires M.Inv(s.m) && !s.m.torn && FramesAsked(s.m, s.reqs)
    ensures s.m.out == Frames(AskedAll(s.reqs, Order(s.m))) + partial && MatchPacket(partial) == None
    ensures forall b <- AskedAll(s.reqs, Order(s.m)) :: WellSized(b)
  {
    hide Asked, Frame, Frames, MatchPacket, WellSized, M.Queued, M.Input, M.OwnPayload, Concat;
    var m := s.m;
    var sent := AskedAll(s.reqs, m.sent);
    ConcatIsFrames(m.sentFrames, sent);
    partial := M.InFlight(m);
    EmptyUnmatched();
    if Last(m) != [] {
      var c := m.sender.value;
      var body := Asked(s.reqs, c);
      assert partial == Frame(body);
      assert AskedAll(s.reqs, Order(m)) == sent + [body];
      FramesAppend(sent, [body]);
      M.FramesOne(body);
      assert Frames(sent + [body]) + [] == Frames(sent + [body]);
      partial := [];
    } else {
      assert Order(m) == m.sent;
      if m.sender.Some? {
        var c := m.sender.value;
        PrefixUnmatched(Asked(s.reqs, c), m.calls[c].pc.put);
      }
    }
  }

  lemma EmptyUnmatched()
    ensures MatchPacket([]) == None
  {
  }

  /** Splitting more of a stream only adds packets. */
  lemma SplitGrows(a: bytes, b: bytes)
    requires a <= b
    ensures Split(a).bodies <= Split(b).bodies
  {
    SplitResumes(a, b[|a|..]);
    hide Split;
    assert a + b[|a|..] == b;
  }

  lemma PrefixClaimed(bodies: seq<bytes>, partial: bytes, claimed: seq<bytes>, tail: bytes)
    requires MatchPacket(partial) == None && Frames(claimed) + tail <= Frames(bodies) + partial
    requires (forall b <- bodies :: WellSized(b)) && (forall b <- claimed :: WellSized(b))
    ensures claimed <= bodies
  {
    hide MatchPacket, Frames, WellSized, Split;
    SplitFrames(bodies, partial);
    SplitEnd(partial);
    SplitFrames(claimed, tail);
    SplitGrows(Frames(claimed) + tail, Frames(bodies) + partial);
    assert bodies + [] == bodies;
  }

  /** So the packets the workers have claimed are the packets written, in order. */
  lemma ClaimsHold(s: Sys)
    requires M.Inv(s.m) && !s.m.torn && FramesAsked(s.m, s.reqs)
    requires P.Input(s.p) && !s.p.torn && s.p.taken <= s.m.out
    ensures Claims(s)
  {
    hide Asked, MatchPacket, Frames, WellSized, M.Inv, Order, FramesAsked;
    var partial := WrittenIs(s);
    var bodies := AskedAll(s.reqs, Order(s.m));
    PrefixClaimed(bodies, partial, s.p.bodies, P.Tail(s.p));
    forall k | 0 <= k < |s.p.bodies|
      ensures s.p.bodies[k] == Asked(s.reqs, Who(s.m, k))
    {
      assert s.p.bodies[k] == bodies[k];
    }
  }

  lemma OrderOnce(m: M.Mux)
    requires M.Inv(m)
    ensures H.Once(Order(m)) && forall c <- Order(m) :: c < |m.calls|
  {
    hide M.Queued, M.Output, M.Input, M.OwnPayload;
    assert forall c <- m.sent :: c < |m.calls|;
  }

  lemma OrderGrows(m: M.Mux, a: M.Act)
    requires M.Inv(m) && M.Enabled(m, a) && !a.FailWrite? && Listed(m)
    ensures Order(m) <= Order(M.Apply(m, a))
  {
    hide MatchPacket, H.Step, IdIn, M.Output, M.Input, M.OwnPayload, M.Queued, M.InFlight;
    if a.Dispatch? && !M.Short(m) {
      M.DeliverChanges(M.MoveTo(m, a.c, M.Recheck), m.h.queue.chain, M.Matched(m));
      hide M.Matched, M.Deliver, M.Target, M.Short;
    }
  }

  // ----- from the workers to the coroutines

  /** The reply being written. */
  function Current(p: P.Pool): (x: Option<P.Worker>)
    ensures x.Some? ==> x.value.Writing?
  {
    match p.writer
    case Some(w) => if w < |p.workers| && p.workers[w].Writing? then Some(p.workers[w]) else None
    case None => None
  }

  /** The packets answered, the one being answered included. */
  function Replied(p: P.Pool): (ks: seq<nat>) {
    p.answered + match Current(p) case Some(x) => [x.k] case None => []
  }

  /** What is written once the current reply is complete. */
  function Produced(p: P.Pool): (s: bytes) {
    Concat(p.responses) + match Current(p) case Some(x) => x.response case None => []
  }

  /** A result the backend has produced for the packet, fit to be read back. */
  predicate Usable(body: bytes, r: Result) {
    P.Possible(HandleFrame(body), r) && Fits(r) && !r.RData?
  }

  ghost predicate Decided(p: P.Pool) {
    forall k <- p.pending :: k < |p.bodies| && Usable(p.bodies[k], p.pending[k])
  }

  /** Neither stream is torn, and each side has read a prefix of what the other has written. */
  ghost predicate Streams(s: Sys) {
    && !s.m.torn && !s.p.torn && !s.p.broken
    && s.p.taken <= s.m.out && s.m.got <= s.p.out
  }

  ghost predicate Inv(s: Sys) {
    M.Inv(s.m) && P.Inv(s.p) && Streams(s) && FramesAsked(s.m, s.reqs) && Claims(s) && Decided(s.p)
  }

  lemma ProducedCovers(p: P.Pool)
    requires P.Inv(p) && !p.broken
    ensures p.out <= Produced(p)
  {
    hide Concat, P.Input, P.Accounts, P.Faithful, P.Endings;
    if Current(p).Some? {
      var x := Current(p).value;
      assert x.response == x.response[..x.put] + x.response[x.put..];
      Regroup(Concat(p.responses), x.response[..x.put], x.response[x.put..]);
    }
  }

  /** The calls of the packets claimed stay the same. */
  lemma WhoStays(s: Sys, m': M.Mux)
    requires Claims(s) && Order(s.m) <= Order(m')
    ensures forall k: nat | k < |s.p.bodies| :: Who(m', k) == Who(s.m, k)
  {
  }

  lemma AskedStays(s: Sys, a: M.Act)
    requires M.Inv(s.m) && FramesAsked(s.m, s.reqs) && M.Enabled(s.m, a) && Listed(s.m)
    ensures |M.Apply(s.m, a).calls| == |s.m.calls| + if a.Issue? then 1 else 0
    ensures forall c | 0 <= c < |s.m.calls| :: M.Apply(s.m, a).calls[c].frame == s.m.calls[c].frame
  {
    hide MatchPacket, H.Step, IdIn, M.Queued, M.Exclusive, M.Output, M.Roster, M.Input, M.OwnPayload, M.InFlight,
         Asked, Frame, WellSized;
    if a.Dispatch? && !M.Short(s.m) {
      M.DeliverChanges(M.MoveTo(s.m, a.c, M.Recheck), s.m.h.queue.chain, M.Matched(s.m));
      hide M.Matched, M.Deliver, M.Target, M.Short;
    }
  }

  lemma StreamsStay(s: Sys, a: M.Act, s': Sys)
    requires Streams(s) && M.Enabled(s.m, a) && Listed(s.m)
    requires s'.p == s.p && s'.m == M.Apply(s.m, a) && !a.FailWrite?
    requires a.Receive? ==> s.m.got + a.chunk <= s.p.out
    ensures Streams(s')
  {
    hide H.Step, M.Deliver, M.Short, MatchPacket, M.Matched;
  }

  lemma PrefixTaken(s: Sys)
    requires P.Inv(s.p) && Streams(s)
    ensures P.Input(s.p) && s.p.taken <= s.m.out && !s.m.torn && !s.p.torn
  {
  }

  lemma HeldIsClaimed(p: P.Pool, w: nat)
    requires P.Accounts(p) && w < |p.workers|
    ensures var x := p.workers[w];
      x.Serving? || x.WantWrite? || x.Writing? ==>
        x.k < |p.bodies| && x.k !in p.answered && x.k !in p.dropped && P.Holds(x, x.k)
  {
    var x := p.workers[w];
    if x.Serving? || x.WantWrite? || x.Writing? {
      assert P.Holds(x, x.k);
      assert x.k !in p.answered + p.dropped;
    }
  }

  /** The reply of a result that is read back: one packet with the id of the request. */
  lemma SentIsFrame(r: Result, tp: byte, id: u32, payload: bytes)
    requires Fits(r) && !r.RData?
    ensures Sent(r, RequestId(Body(tp, id, payload))) == Frame(Body(ReplyType(r), id, ReplyPayload(r)))
    ensures WellSized(Body(ReplyType(r), id, ReplyPayload(r)))
  {
    hide Frame, Body, ReplyType, ReplyPayload;
    SentIsPacket(r, id);
    ParseBody(tp, id, payload);
  }

  // ----- every step keeps it

  lemma AskedGrows(s: Sys, r: Request)
    requires FramesAsked(s.m, s.reqs) && Length(r) + 4 < TWO_32
    requires Listed(s.m)
    ensures FramesAsked(M.Apply(s.m, M.Issue(Issued(s, r))), s.reqs + [r])
  {
    LengthIsBody(r);
    hide Payload, Frame, OpCode, H.IdOf, Length, H.Step;
    var reqs := s.reqs + [r];
    var body := Asked(reqs, |s.reqs|);
    assert Issued(s, r) == Frame(body) && WellSized(body);
    hide Body, Issued, WellSized;
    assert forall c: nat | c < |s.reqs| :: Asked(reqs, c) == Asked(s.reqs, c);
    hide Asked;
  }

  /** What every step of a coroutine keeps. */
  lemma ClientKeeps(s: Sys, a: M.Act, s': Sys)
    requires Inv(s) && M.Enabled(s.m, a) && Listed(s.m) && !a.FailWrite?
    requires s'.p == s.p && s'.m == M.Apply(s.m, a) && FramesAsked(s'.m, s'.reqs)
    requires a.Receive? ==> s.m.got + a.chunk <= s.p.out
    ensures Inv(s')
  {
    hide M.Inv, P.Inv, M.Apply, M.Enabled, FramesAsked, Claims, Decided, Streams;
    StreamsStay(s, a, s');
    M.StepKeeps(s.m, a);
    PrefixTaken(s');
    ClaimsHold(s');
  }

  /** What every step of a worker keeps. */
  lemma WorkerKeeps(s: Sys, a: P.Act)
    requires M.Inv(s.m) && P.Inv(s.p) && Streams(s) && FramesAsked(s.m, s.reqs) && Enabled(s, Worker(a))
    ensures var s' := s.(p := P.Apply(s.p, a));
      P.Inv(s'.p) && Streams(s') && Claims(s') && s.p.bodies <= s'.p.bodies
  {
    hide MatchPacket, HandleFrame, P.Possible, P.Encodable, Sent, RequestId, Claims, FramesAsked, M.Inv, P.Inv;
    P.StepKeeps(s.p, a);
    var s' := s.(p := P.Apply(s.p, a));
    assert Streams(s') && s.p.bodies <= s'.p.bodies;
    hide P.Enabled, P.Apply;
    PrefixTaken(s');
    ClaimsHold(s');
  }

  lemma PendingStays(p: P.Pool, a: P.Act)
    requires a.w < |p.workers| && !a.Serve?
    ensures P.Apply(p, a).pending == p.pending
  {
    hide MatchPacket, Sent, RequestId;
  }

  lemma ServeDecides(p: P.Pool, w: nat, r: Result)
    requires P.Enabled(p, P.Serve(w, r)) && Fits(r) && !r.RData?
    ensures var k, p' := p.workers[w].k, P.Apply(p, P.Serve(w, r));
      && p.workers[w].Serving? && k < |p.bodies| && Usable(p.bodies[k], r)
      && p'.bodies == p.bodies && p'.pending == p.pending[k := r]
  {
    hide HandleFrame, P.Possible, Fits, Sent, RequestId;
  }

  lemma DecidedStep(s: Sys, a: P.Act)
    requires Decided(s.p) && Enabled(s, Worker(a)) && Readable(Worker(a)) && s.p.bodies <= P.Apply(s.p, a).bodies
    ensures Decided(P.Apply(s.p, a))
  {
    hide HandleFrame, P.Possible, Fits, Usable, MatchPacket, Sent, RequestId;
    if a.Serve? {
      ServeDecides(s.p, a.w, a.result);
    } else {
      PendingStays(s.p, a);
    }
    hide P.Enabled, P.Apply;
  }

  /** Every step of a coroutine or a worker keeps the two sides in step: the packets claimed are
      those written, in order, and each has its usable result. */
  lemma StepKeeps(s: Sys, t: Act)
    requires Inv(s) && Enabled(s, t) && Readable(t)
    ensures Listed(s.m) && Inv(Do(s, t))
  {
    M.ChainInRange(s.m);
    hide M.Inv, P.Inv, FramesAsked, Claims, Decided, Streams, M.Apply, P.Apply, Packet;
    match t {
      case Ask(r) =>
        AskedGrows(s, r);
        ClientKeeps(s, M.Issue(Issued(s, r)), Do(s, t));
      case Client(a) =>
        FramesStay(s, a);
        ClientKeeps(s, a, Do(s, t));
      case Worker(a) =>
        WorkerKeeps(s, a);
        DecidedStep(s, a);
    }
  }

  lemma FramesStay(s: Sys, a: M.Act)
    requires M.Inv(s.m) && FramesAsked(s.m, s.reqs) && M.Enabled(s.m, a) && !a.Issue? && Listed(s.m)
    ensures FramesAsked(M.Apply(s.m, a), s.reqs)
  {
    AskedStays(s, a);
    hide M.Inv, M.Apply, M.Enabled, Asked, Frame, WellSized;
  }

  lemma StartKeeps(workers: nat)
    ensures Inv(Start(workers))
  {
    M.StartInv();
    P.StartInv(workers);
    hide M.Inv, P.Inv;
  }

  ghost predicate Legal(s: Sys, acts: seq<Act>)
    decreases |acts|
  {
    acts == [] || (Enabled(s, acts[0]) && Legal(Do(s, acts[0]), acts[1..]))
  }

  ghost function After(s: Sys, acts: seq<Act>): (r: Sys)
    requires Legal(s, acts)
    decreases |acts|
  {
    if acts == [] then s else After(Do(s, acts[0]), acts[1..])
  }

  lemma {:induction false} RunKeeps(s: Sys, acts: seq<Act>)
    requires Inv(s) && Legal(s, acts) && forall t <- acts :: Readable(t)
    ensures Inv(After(s, acts))
    decreases |acts|
  {
    if acts != [] {
      hide Inv, Readable;
      StepKeeps(s, acts[0]);
      hide Enabled, Do;
      RunKeeps(Do(s, acts[0]), acts[1..]);
    }
  }

  // ----- what the coroutines have read

  /** The reply to packet k: the backend's result, under the id of the call that asked. */
  function ReplyBody(s: Sys, k: nat): (body: bytes) {
    if k in s.p.pending
    then Body(ReplyType(s.p.pending[k]), H.IdOf(Who(s.m, k)), ReplyPayload(s.p.pending[k]))
    else []
  }

  function ReplyBodies(s: Sys, ks: seq<nat>): (bodies: seq<bytes>)
    ensures |bodies| == |ks| && forall i | 0 <= i < |ks| :: bodies[i] == ReplyBody(s, ks[i])
  {
    seq(|ks|, i requires 0 <= i < |ks| => ReplyBody(s, ks[i]))
  }

  lemma RepliedPending(p: P.Pool)
    requires P.Inv(p)
    ensures forall k <- Replied(p) :: k in p.pending
  {
    hide P.Input, P.Output, P.Accounts, P.Endings, P.Answers;
    if Current(p).Some? {
      assert P.Ready(p, p.workers[p.writer.value]);
    }
  }

  /** A response to packet k is that reply, whole. */
  lemma ResponseIs(s: Sys, k: nat, response: bytes)
    requires M.Inv(s.m) && FramesAsked(s.m, s.reqs) && Claims(s) && Decided(s.p) && k in s.p.pending
    requires P.Answers(s.p.bodies, k, s.p.pending[k], response)
    ensures Who(s.m, k) < |s.reqs| && response == Frame(ReplyBody(s, k)) && WellSized(ReplyBody(s, k))
  {
    hide Frame, Body, ReplyType, ReplyPayload, Fits, HandleFrame, P.Possible, P.Encodable, Sent, RequestId, WellSized,
         M.Inv, OpCode, Payload, H.IdOf;
    OrderOnce(s.m);
    var c := Who(s.m, k);
    assert c in Order(s.m);
    hide Order;
    SentIsFrame(s.p.pending[k], OpCode(s.reqs[c]), H.IdOf(c), Payload(s.reqs[c]));
  }

  /** So what the workers write is the replies, in the order of their start. */
  lemma ProducedIs(s: Sys)
    requires Inv(s)
    ensures Produced(s.p) == Frames(ReplyBodies(s, Replied(s.p)))
    ensures forall b <- ReplyBodies(s, Replied(s.p)) :: WellSized(b)
  {
    hide M.Inv, FramesAsked, Claims, Decided, Streams, Frame, Frames, WellSized, ReplyBody, Concat, P.Answers, P.Input,
         P.Output, P.Accounts, P.Endings;
    var bodies := ReplyBodies(s, s.p.answered);
    forall i | 0 <= i < |s.p.answered|
      ensures s.p.responses[i] == Frame(bodies[i]) && WellSized(bodies[i])
    {
      ResponseIs(s, s.p.answered[i], s.p.responses[i]);
    }
    ConcatIsFrames(s.p.responses, bodies);
    if Current(s.p).Some? {
      var x := Current(s.p).value;
      assert P.Ready(s.p, s.p.workers[s.p.writer.value]);
      ResponseIs(s, x.k, x.response);
      assert ReplyBodies(s, Replied(s.p)) == bodies + [ReplyBody(s, x.k)];
      FramesAppend(bodies, [ReplyBody(s, x.k)]);
      M.FramesOne(ReplyBody(s, x.k));
    } else {
      assert ReplyBodies(s, Replied(s.p)) == bodies;
    }
  }

  /** The packets dispatched by the client are the first of them. */
  lemma HeardIs(s: Sys)
    requires Inv(s)
    ensures s.m.bodies <= ReplyBodies(s, Replied(s.p))
  {
    ProducedIs(s);
    ProducedCovers(s.p);
    MuxInput(s.m);
    EmptyUnmatched();
    var bodies := ReplyBodies(s, Replied(s.p));
    hide M.Inv, P.Inv, FramesAsked, Claims, Decided, Frames, WellSized, MatchPacket, Produced, ReplyBodies, Replied;
    assert Frames(bodies) + [] == Frames(bodies);
    PrefixClaimed(bodies, [], s.m.bodies, s.m.buffer);
  }

  lemma MuxInput(m: M.Mux)
    requires M.Inv(m)
    ensures m.got == Frames(m.bodies) + m.buffer && forall b <- m.bodies :: WellSized(b)
  {
  }

  // ----- what they make of it

  /** What the coroutine's response record makes of the backend's result: success, or the
      status of the error, or exactly what the backend delivered. */
  ghost predicate Sees(req: Request, r: Result, o: Completion) {
    match req
    case Open(_, _, _) | Opendir(_) =>
      var x := CompleteHandle(o.ec, o.tp, o.payload);
      (match r
       case RHandle(h) => x == (NoError, h)
       case RStatus(e, _) => x == (Visible(e), []) && e.Failed()
       case _ => false)
    case Stat(_) | Lstat(_) =>
      var x := CompleteAttrs(o.ec, o.tp, o.payload);
      (match r
       case RAttrs(a) => x == (NoError, Mask(a)) <==> !Has(a.flags, ATTR_EXTENDED)
       case RStatus(e, _) => x == (Visible(e), NO_ATTRS) && e.Failed()
       case _ => false)
    case Readlink(_) | CanonicalizePath(_) | ExpandPath(_) =>
      var x := CompleteName(o.ec, o.tp, o.payload);
      (match r
       case RName(n) => x == (NoError, n)
       case RStatus(e, _) => x == (Visible(e), []) && e.Failed()
       case _ => false)
    case Readdir(_) =>
      var x := CompleteEntries(o.ec, o.tp, o.payload);
      (match r
       case RNames(es) => if es == [] then x == (BAD, []) else x == (NoError, MaskAll(es)) <==> Plain(es)
       case RStatus(e, _) => x == (Visible(e), []) && e.Failed()
       case _ => false)
    case Read(_, _, size) =>
      var x := CompleteData(o.ec, o.tp, o.payload, size);
      (match r
       case RStatus(e, _) => x == (if StatusOf(e) == 1 then Eof else Visible(e), []) && e.Failed()
       case _ => false)
    case _ => r.RStatus? && CompleteStatus(o.ec, o.tp, o.payload) == Visible(r.ec)
  }

  lemma ResultSeen(req: Request, r: Result)
    requires Deliverable(req) && P.Possible(Invoke(Intended(req)), r) && Fits(r) && !r.RData?
    ensures Sees(req, r, Completion(NoError, ReplyType(r), ReplyPayload(r)))
  {
    hide ReplyPayload, CompleteStatus, CompleteHandle, CompleteAttrs, CompleteName, CompleteEntries, CompleteData,
         MaskAll, Plain, Has, Mask, Visible, StatusOf, Fits;
    match r {
      case RStatus(e, msg) =>
        StatusRoundTrip(e, msg);
        FailureRoundTrip(e, msg, if req.Read? then req.size else 0);
      case RHandle(h) => HandleRoundTrip(h);
      case RAttrs(a) => AttrsReplyRoundTrip(a);
      case RName(n) => NameRoundTrip(n);
      case RNames(es) =>
        if es == [] {
          EmptyNamesRefused(es);
        } else {
          NamesRoundTrip(es);
        }
      case RData(_) =>
    }
  }

  predicate Understood(r: Request, body: bytes) {
    Deliverable(r) ==> HandleFrame(body) == Invoke(Intended(r))
  }

  /** The server understands what a coroutine asks. */
  lemma AskedUnderstood(reqs: seq<Request>, c: nat)
    requires c < |reqs| && Length(reqs[c]) < TWO_32
    ensures Understood(reqs[c], Asked(reqs, c))
  {
    PacketRoundTrip(reqs[c], H.IdOf(c));
    hide ParsePacket, Body, Payload, Intended, Length, OpCode;
  }

  lemma UnderstoodSeen(req: Request, body: bytes, r: Result)
    requires Understood(req, body) && Usable(body, r) && Deliverable(req)
    ensures Sees(req, r, Completion(NoError, ReplyType(r), ReplyPayload(r)))
  {
    hide Sees, P.Possible, ReplyPayload, ReplyType, HandleFrame, Intended, Fits;
    ResultSeen(req, r);
  }

  /** The record of call c holds the reply to packet k: the result the backend produced for it. The
      packet is one the session has written, and carries the id of call c. */
  ghost predicate Carries(s: Sys, c: nat, k: nat) {
    && c < |s.m.calls| && k in Replied(s.p) && k < |s.p.bodies| && k in s.p.pending && Who(s.m, k) < |s.reqs|
    && s.p.bodies[k] == Asked(s.reqs, Who(s.m, k)) && H.IdOf(Who(s.m, k)) == H.IdOf(c)
    && var r := s.p.pending[k];
       && P.Possible(HandleFrame(s.p.bodies[k]), r)
       && s.m.calls[c].outcome == Some(Completion(NoError, ReplyType(r), ReplyPayload(r)))
  }

  /** Packet k is call c's own. If the operation is deliverable, the backend was called with exactly
      the caller's arguments, and the caller sees its result. */
  ghost predicate Told(s: Sys, c: nat, k: nat) {
    && Carries(s, c, k) && Who(s.m, k) == c && Understood(s.reqs[c], s.p.bodies[k])
    && (Deliverable(s.reqs[c]) ==> Sees(s.reqs[c], s.p.pending[k], s.m.calls[c].outcome.value))
  }

  /** The record holds something other than a cancellation. */
  predicate Answered(m: M.Mux, c: nat) {
    c < |m.calls| && m.calls[c].outcome.Some? && !m.calls[c].outcome.value.ec.Failed()
  }

  lemma AskedFits(m: M.Mux, reqs: seq<Request>, c: nat)
    requires FramesAsked(m, reqs) && c < |m.calls|
    ensures c < |reqs| && Length(reqs[c]) < TWO_32
  {
    hide Payload, OpCode, H.IdOf, Length;
    assert WellSized(Asked(reqs, c));
    LengthIsBody(reqs[c]);
  }

  /** What it holds came in a packet that the client dispatched, so in a reply. */
  lemma HeardFrom(s: Sys, c: nat) returns (k: nat)
    requires Inv(s) && Answered(s.m, c)
    ensures var done := s.m.calls[c].outcome.value;
      && done.ec == NoError && k in Replied(s.p) && ReplyBody(s, k) == Body(done.tp, H.IdOf(c), done.payload)
  {
    HeardIs(s);
    var done := s.m.calls[c].outcome.value;
    assert M.OwnPayload(s.m, c);
    hide M.Inv, P.Inv, FramesAsked, Streams, Claims, Decided, Body, ReplyBody, H.IdOf, Replied;
    var i :| 0 <= i < |s.m.bodies| && s.m.bodies[i] == Body(done.tp, H.IdOf(c), done.payload);
    k := Replied(s.p)[i];
    assert ReplyBody(s, k) == ReplyBodies(s, Replied(s.p))[i];
  }

  lemma CarriesNow(s: Sys, c: nat) returns (k: nat)
    requires Inv(s) && Answered(s.m, c)
    ensures Carries(s, c, k)
  {
    hide M.Inv, P.Inv, FramesAsked, Streams, Body, ReplyType, ReplyPayload, HandleFrame, P.Possible, Fits, H.IdOf,
         Order, Asked, Who, Replied;
    k := HeardFrom(s, c);
    RepliedPending(s.p);
    ClaimedIsCalls(s, k);
    var done, r := s.m.calls[c].outcome.value, s.p.pending[k];
    BodyParts(done.tp, H.IdOf(c), done.payload);
    BodyParts(ReplyType(r), H.IdOf(Who(s.m, k)), ReplyPayload(r));
  }

  lemma ClaimedIsCalls(s: Sys, k: nat)
    requires M.Inv(s.m) && FramesAsked(s.m, s.reqs) && Claims(s) && k < |s.p.bodies|
    ensures Who(s.m, k) < |s.reqs|
  {
    OrderOnce(s.m);
    hide M.Inv;
    assert Who(s.m, k) in Order(s.m);
  }

  /** With no more than 2^32 calls an id belongs to one of them. */
  lemma ToldNow(s: Sys, c: nat, k: nat)
    requires Inv(s) && Carries(s, c, k) && (Who(s.m, k) == c || |s.m.calls| <= TWO_32)
    ensures Told(s, c, k)
  {
    assert Who(s.m, k) == c by {
      hide Asked, HandleFrame, P.Possible, M.Inv, P.Inv, Order;
      SmallId(c);
      SmallId(Who(s.m, k));
    }
    AskedFits(s.m, s.reqs, c);
    hide Sees, ReplyType, ReplyPayload, P.Possible, HandleFrame, P.Inv, M.Inv, Order, Streams, FramesAsked, Who, Fits,
         Asked, Understood, Length, Replied, H.IdOf;
    AskedUnderstood(s.reqs, c);
    if Deliverable(s.reqs[c]) {
      hide Deliverable;
      UnderstoodSeen(s.reqs[c], s.p.bodies[k], s.p.pending[k]);
    }
  }

  lemma SmallId(n: nat)
    ensures n < TWO_32 ==> H.IdOf(n) == n
  {
  }

  /** For any number of coroutines, any number of workers and any interleaving, whatever is
      cancelled and whatever drops off the list: a call that was told anything but its
      cancellation holds the result that the backend produced for a packet with its id; with no
      more than 2^32 calls, for its own. */
  lemma OwnAnswer(workers: nat, acts: seq<Act>, c: nat)
    requires Legal(Start(workers), acts) && (forall t <- acts :: Readable(t))
    requires Answered(After(Start(workers), acts).m, c)
    ensures var s := After(Start(workers), acts);
      exists k: nat :: Carries(s, c, k) && (|s.m.calls| <= TWO_32 ==> Told(s, c, k))
  {
    StartKeeps(workers);
    RunKeeps(Start(workers), acts);
    var s := After(Start(workers), acts);
    hide After, Legal, Start, Told, Carries, Inv, Answered;
    var k := CarriesNow(s, c);
    if |s.m.calls| <= TWO_32 {
      ToldNow(s, c, k);
    }
  }
}
