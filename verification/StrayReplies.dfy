/** Why EndToEnd leaves a successful READ out, and why its main theorem counts calls: two runs in
    which a call is told what was never meant for it. */
module StrayReplies {
  import opened Wire
  import opened Cursors
  import opened Framing
  import opened Packets
  import opened Requests
  import opened Dispatch
  import opened Replies
  import opened ResponseQueues
  import opened EndToEnd
  import H = RequestHistory
  import M = ClientMux
  import P = ServerPool

  /** Some run with one worker leads to it. */
  ghost predicate Reachable(s: Sys) {
    exists acts :: Legal(Start(1), acts) && After(Start(1), acts) == s
  }

  lemma {:induction false} Snoc(s: Sys, acts: seq<Act>, t: Act)
    requires Legal(s, acts) && Enabled(After(s, acts), t)
    ensures Legal(s, acts + [t]) && After(s, acts + [t]) == Do(After(s, acts), t)
    decreases |acts|
  {
    hide Do;
    if acts == [] {
      assert ([] + [t])[1..] == [];
      assert After(Do(s, t), ([] + [t])[1..]) == Do(s, t);
    } else {
      assert (acts + [t])[1..] == acts[1..] + [t];
      Snoc(Do(s, acts[0]), acts[1..], t);
    }
  }

  lemma Then(s: Sys, t: Act) returns (s': Sys)
    requires Reachable(s) && Enabled(s, t)
    ensures s' == Do(s, t) && Reachable(s')
  {
    hide Do, Legal;
    var acts :| Legal(Start(1), acts) && After(Start(1), acts) == s;
    Snoc(Start(1), acts, t);
    s' := Do(s, t);
    assert After(Start(1), acts + [t]) == s';
  }

  lemma Begin() returns (s: Sys)
    ensures s == Start(1) && Reachable(s)
  {
    s := Start(1);
    assert Legal(s, []) && After(s, []) == s;
  }

  lemma Asks(s: Sys, r: Request) returns (s': Sys)
    requires Reachable(s) && Listed(s.m) && Length(r) + 4 < TWO_32 && |s.reqs| == |s.m.calls|
    ensures Reachable(s') && s'.p == s.p && s'.reqs == s.reqs + [r]
    ensures var f := Frame(Asked(s'.reqs, |s.reqs|));
      s'.m == s.m.(h := H.Step(s.m.h, H.Issue), calls := s.m.calls + [M.Call(f, M.WantSend, None)])
  {
    hide Reachable, H.Step, Body, Frame, Length, OpCode, Payload;
    s' := Then(s, Ask(r));
  }

  /** A call writes its packet. */
  lemma Sends(s: Sys, c: nat) returns (s': Sys)
    requires Reachable(s) && Listed(s.m) && M.At(s.m, c, M.WantSend) && s.m.sender == None
    requires s.m.calls[c].frame != []
    ensures Reachable(s')
    ensures var f := s.m.calls[c].frame;
      s' == s.(m := s.m.(calls := M.MoveTo(s.m, c, M.Recheck), sent := s.m.sent + [c],
                         sentFrames := s.m.sentFrames + [f], out := s.m.out + f))
  {
    hide Reachable;
    var f := s.m.calls[c].frame;
    s' := Then(s, Client(M.LockSend(c)));
    s' := Then(s', Client(M.Put(c, |f|)));
    assert f[0..0 + |f|] == f;
    s' := Then(s', Client(M.UnlockSend(c)));
  }

  /** It finds its record untouched and takes the second mutex. */
  lemma StartsReading(s: Sys, c: nat) returns (s': Sys)
    requires Reachable(s) && Listed(s.m) && M.At(s.m, c, M.Recheck) && s.m.calls[c].outcome == None
    requires s.m.reader == None
    ensures Reachable(s') && s' == s.(m := s.m.(reader := Some(c), calls := M.MoveTo(s.m, c, M.Reading)))
  {
    hide Reachable;
    s' := Then(s, Client(M.Check(c)));
    s' := Then(s', Client(M.LockRead(c)));
  }

  /** The worker claims the first packet. */
  lemma WorkerClaims(s: Sys, body: bytes) returns (s': Sys)
    requires Reachable(s) && s.p == P.Start(1) && s.m.out == Frame(body) && WellSized(body)
    ensures Reachable(s')
    ensures s' == s.(p := P.Start(1).(workers := [P.Serving(0)], taken := Frame(body), bodies := [body]))
  {
    hide Reachable, Frame, MatchPacket;
    M.OnePacket(body);
    s' := Then(s, Worker(P.Lock(0)));
    s' := Then(s', Worker(P.Receive(0, Frame(body))));
    s' := Then(s', Worker(P.Claim(0)));
  }

  /** The backend produces a result, and the worker writes the reply. */
  lemma WorkerServes(s: Sys, body: bytes, r: Result) returns (s': Sys)
    requires Reachable(s)
    requires s.p == P.Start(1).(workers := [P.Serving(0)], taken := Frame(body), bodies := [body])
    requires P.Possible(HandleFrame(body), r) && Fits(r) && Sent(r, RequestId(body)) != []
    ensures Reachable(s') && s'.m == s.m && s'.reqs == s.reqs
    ensures s'.p.out == Sent(r, RequestId(body)) && s'.p.results == [r] && s'.p.bodies == [body]
  {
    hide Reachable, Frame, MatchPacket, HandleFrame, P.Possible, Fits, RequestId, Sent;
    var response := Sent(r, RequestId(body));
    s' := Then(s, Worker(P.Serve(0, r)));
    s' := WorkerWrites(s', response);
  }

  lemma WorkerWrites(s: Sys, response: bytes) returns (s': Sys)
    requires Reachable(s) && response != [] && s.p.workers == [P.WantWrite(0, response)] && s.p.writer == None
    requires 0 in s.p.pending && s.p.out == [] && s.p.results == []
    ensures Reachable(s') && s'.m == s.m && s'.reqs == s.reqs
    ensures s'.p.out == response && s'.p.results == [s.p.pending[0]] && s'.p.bodies == s.p.bodies
  {
    hide Reachable;
    s' := Then(s, Worker(P.LockWrite(0)));
    s' := Then(s', Worker(P.Put(0, |response|)));
    assert response[0..0 + |response|] == response;
    s' := Then(s', Worker(P.Finish(0)));
  }

  /** A reader finds one packet, and the record with its id is completed. */
  lemma Dispatches(s: Sys, c: nat, d: nat, tp: byte, payload: bytes) returns (s': Sys)
    requires Reachable(s) && Listed(s.m) && M.At(s.m, c, M.Reading) && s.m.calls[c].outcome == None
    requires s.m.got == [] && s.m.buffer == [] && s.p.out == Frame(Body(tp, H.IdOf(d), payload))
    requires 9 + |payload| < TWO_32 && M.Target(s.m.h.queue.chain, H.IdOf(d)) == Some(d)
    ensures Reachable(s') && s'.reqs == s.reqs && s'.p == s.p && s'.m.sent == s.m.sent && s'.m.sender == s.m.sender
    ensures d < |s.m.calls|
    ensures var moved := M.MoveTo(s.m, c, M.Recheck);
      s'.m.calls == moved[d := moved[d].(outcome := Some(Completion(NoError, tp, payload)))]
  {
    hide Reachable, H.Step, MatchPacket, Frame, Body, IdIn, M.Target, H.IdOf;
    var body := Body(tp, H.IdOf(d), payload);
    BodyParts(tp, H.IdOf(d), payload);
    M.OnePacket(body);
    assert [] + Frame(body) == Frame(body);
    s' := Then(s, Client(M.Receive(c, Frame(body))));
    s' := Then(s', Client(M.Dispatch(c)));
  }

  // ----- a file that answers

  /** Two calls are waiting; the first has written its packet. */
  lemma TwoAsked(r: Request, other: Request) returns (s: Sys)
    requires Length(r) + 4 < TWO_32 && Length(other) + 4 < TWO_32
    ensures Reachable(s) && s.reqs == [r, other] && s.p == P.Start(1)
    ensures var reqs := [r, other]; var f := Frame(Asked(reqs, 0));
      s.m == M.START.(h := H.History(2, Queue([0, 1], true), []), sent := [0], sentFrames := [f], out := f,
                      calls := [M.Call(f, M.Recheck, None), M.Call(Frame(Asked(reqs, 1)), M.WantSend, None)])
  {
    hide Reachable, H.Step, Body, Frame, Length, OpCode, Payload;
    s := Begin();
    H.TwoIssued();
    FirstIssued();
    s := Asks(s, r);
    s := Asks(s, other);
    s := Sends(s, 0);
  }

  lemma FirstIssued()
    ensures H.Step(H.START, H.Issue) == H.History(1, Queue([0], true), [])
  {
  }

  lemma ReadUnderstood(r: Request)
    requires r.Read? && Length(r) < TWO_32 && r.size <= LIMIT
    ensures HandleFrame(Body(OpCode(r), 0, Payload(r))) == Invoke(SReadAt(r.handle, r.offset, r.size))
  {
    PacketRoundTrip(r, 0);
    hide ParsePacket, Payload, OpCode, Length, Body;
  }

  lemma DataFits(data: bytes)
    requires |data| <= LIMIT
    ensures Fits(RData(data))
  {
  }

  lemma ReadInvokes(r: Request, other: Request, data: bytes)
    requires r.Read? && Length(r) + 4 < TWO_32 && r.size <= LIMIT && |data| <= r.size
    ensures P.Possible(HandleFrame(Asked([r, other], 0)), RData(data)) && Fits(RData(data))
    ensures WellSized(Asked([r, other], 0))
  {
    hide HandleFrame, Payload, OpCode, Length, Body;
    DataFits(data);
    LengthIsBody(r);
    ReadUnderstood(r);
    hide Fits;
  }

  /** Whatever the two requests are, if the first reads a file and the file holds a packet with the
      second one's id: the second call is told what the file says, before it has even been sent,
      and the first is told nothing. */
  lemma FileAnswers(r: Request, other: Request, tp: byte, payload: bytes) returns (s: Sys)
    requires r.Read? && Length(r) + 4 < TWO_32 && Length(other) + 4 < TWO_32
    requires r.size <= LIMIT && 9 + |payload| <= r.size
    ensures Reachable(s) && s.reqs == [r, other] && |s.m.calls| == 2
    ensures s.p.results == [RData(Frame(Body(tp, 1, payload)))] && s.p.bodies == [Asked(s.reqs, 0)]
    ensures s.m.calls[1].pc == M.WantSend && s.m.calls[1].outcome == Some(Completion(NoError, tp, payload))
    ensures s.m.calls[0].outcome == None
  {
    hide Reachable, Length, Frame, Body, OpCode, Payload, HandleFrame, M.Target, Sent, RequestId, Fits, P.Possible;
    var reqs := [r, other];
    var data := Frame(Body(tp, 1, payload));
    ReadInvokes(r, other, data);
    SentIsPacket(RData(data), RequestId(Asked(reqs, 0)));
    M.TargetYounger();
    s := TwoAsked(r, other);
    s := WorkerClaims(s, Asked(reqs, 0));
    s := WorkerServes(s, Asked(reqs, 0), RData(data));
    s := StartsReading(s, 0);
    s := Dispatches(s, 0, 1, tp, payload);
  }

  // ----- an id that comes round again

  /** One call, whose packet a worker holds; its read is cancelled. */
  lemma OneCancelled(r: Request) returns (s: Sys)
    requires Length(r) + 4 < TWO_32
    ensures Reachable(s) && s.reqs == [r]
    ensures var body := Asked([r], 0); var f := Frame(body);
      && s.p == P.Start(1).(workers := [P.Serving(0)], taken := f, bodies := [body])
      && s.m == M.START.(h := H.History(1, Queue([], false), [0]), sent := [0], sentFrames := [f], out := f,
                         calls := [M.Call(f, M.Returned, Some(Completion(Eof, 0, [])))])
  {
    hide Reachable, H.Step, Body, Frame, Length, OpCode, Payload, MatchPacket;
    var body := Asked([r], 0);
    FirstIssued();
    Cancelled();
    EmptyUnmatched();
    s := Begin();
    s := Asks(s, r);
    s := Sends(s, 0);
    LengthIsBody(r);
    s := WorkerClaims(s, body);
    s := StartsReading(s, 0);
    s := Then(s, Client(M.Fail(0, Eof)));
  }

  lemma Cancelled()
    ensures H.Step(H.History(1, Queue([0], true), []), H.Cancel) == H.History(1, Queue([], false), [0])
  {
  }

  /** The first call is gone, the others wait to send. */
  ghost predicate Waiting(s: Sys, r: Request, n: nat) {
    && s.reqs == seq(1 + n, i => r) && |s.m.calls| == 1 + n
    && (forall i | 1 <= i < |s.m.calls| :: s.m.calls[i] == M.Call(Frame(Asked(s.reqs, i)), M.WantSend, None))
    && s.m.h == H.History(1 + n, Queue(H.From(1, 1 + n), n > 0), [0])
  }

  /** Any number of requests more. */
  lemma {:induction false} AsksMany(s: Sys, r: Request, n: nat) returns (s': Sys)
    requires Reachable(s) && Waiting(s, r, 0) && Length(r) + 4 < TWO_32
    ensures Reachable(s') && Waiting(s', r, n)
    ensures s'.p == s.p && s'.m == s.m.(h := s'.m.h, calls := s'.m.calls)
  {
    hide Reachable, Frame, Body, Length, OpCode, Payload;
    if n == 0 {
      s' := s;
    } else {
      var mid := AsksMany(s, r, n - 1);
      IssueAgain(n);
      s' := Asks(mid, r);
      assert s'.reqs == seq(1 + n, i => r);
      hide H.Step;
      assert forall i | 0 <= i < n :: Asked(s'.reqs, i) == Asked(mid.reqs, i);
    }
  }

  lemma IssueAgain(n: nat)
    requires n > 0
    ensures H.Step(H.History(n, Queue(H.From(1, n), n > 1), [0]), H.Issue)
         == H.History(1 + n, Queue(H.From(1, 1 + n), true), [0])
  {
    assert H.From(1, n) + [n] == H.From(1, 1 + n);
  }

  /** After 2^32 requests more, the id of the first is that of the last. */
  lemma IdComesRound(h: H.History)
    requires h == H.History(1 + TWO_32, Queue(H.From(1, 1 + TWO_32), true), [0])
    ensures H.IdOf(TWO_32) == H.IdOf(0) && M.Target(h.queue.chain, H.IdOf(TWO_32)) == Some(TWO_32)
  {
    assert H.Inv(h);
    assert h.queue.chain[TWO_32 - 1] == TWO_32;
    H.AnswerSelects(h, TWO_32);
  }

  /** With one call more than 2^32 a call can be told another's result, although every result is
      sent as a packet: a first request, whose caller is cancelled; 2^32 more; then the late reply
      to the first completes the record of the last, which has not even been sent. */
  lemma IdAnswersAnother(r: Request, result: Result) returns (s: Sys)
    requires Length(r) + 4 < TWO_32 && Fits(result) && !result.RData?
    requires P.Possible(HandleFrame(Asked([r], 0)), result)
    ensures Reachable(s) && |s.m.calls| == TWO_32 + 1 && s.p.results == [result]
    ensures Answered(s.m, TWO_32) && forall k: nat :: !Told(s, TWO_32, k)
  {
    hide Reachable, Length, Frame, Body, OpCode, Payload, HandleFrame, M.Target, Sent, RequestId, Fits, P.Possible,
         Told, H.IdOf, H.From, ReplyType, ReplyPayload;
    var body := Asked([r], 0);
    s := OneCancelled(r);
    FirstWaits(s, r);
    s := AsksMany(s, r, TWO_32);
    IdComesRound(s.m.h);
    s := Sends(s, 1);
    SentIsFrame(result, OpCode(r), H.IdOf(0), Payload(r));
    s := WorkerServes(s, body, result);
    s := StartsReading(s, 1);
    s := Dispatches(s, 1, TWO_32, ReplyType(result), ReplyPayload(result));
    NotSent(s);
  }

  lemma FirstWaits(s: Sys, r: Request)
    requires s.reqs == [r] && |s.m.calls| == 1 && s.m.h == H.History(1, Queue([], false), [0])
    ensures Waiting(s, r, 0)
  {
  }

  lemma NotSent(s: Sys)
    requires s.m.sent == [0, 1] && s.m.sender == None
    ensures forall k: nat :: !Told(s, TWO_32, k)
  {
    hide Sees, Asked, HandleFrame, P.Possible, Understood;
    assert Order(s.m) == [0, 1];
  }
}
