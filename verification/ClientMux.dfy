/** The client multiplexer: any number of coroutines on one stream, no dedicated reader.

    Each call enqueues a response record, writes its frame under one mutex, and then loops:
    take the other mutex, read one packet, dispatch it by id, recheck its own flag. One step is
    what a coroutine does between two suspensions. (The source names the mutexes the other way
    round: read_mutex_ guards writing, write_mutex_ guards reading.) */
module ClientMux {
  import opened Wire
  import opened Cursors
  import opened Framing
  import opened Packets
  import opened ResponseQueues
  import H = RequestHistory

  datatype Pc =
    | WantSend               // waiting for the mutex around write
    | Sending(put: nat)      // holding it, `put` bytes handed to the stream
    | Recheck                // at the loop test
    | WantRead               // waiting for the mutex around read_one_
    | Reading                // holding it
    | Returned
    | Aborted                // returned early: a lock or a write failed

  datatype Call = Call(frame: bytes, pc: Pc, outcome: Option<Completion>)

  /** `sent` and `sentFrames` list the calls whose frame is written and unlocked; `torn` says that
      a write has failed; `got` is all that was read so far, `bodies` the packets dispatched. */
  datatype Mux = Mux(h: H.History, calls: seq<Call>, sender: Option<nat>, reader: Option<nat>,
                     sent: seq<nat>, sentFrames: seq<bytes>, out: bytes, torn: bool,
                     got: bytes, buffer: bytes, bodies: seq<bytes>)

  const START: Mux := Mux(H.START, [], None, None, [], [], [], false, [], [], [])

  datatype Act =
    | Issue(frame: bytes)
    | LockSend(c: nat) | Put(c: nat, n: nat) | UnlockSend(c: nat)
    | Check(c: nat)
    | LockRead(c: nat) | Skip(c: nat) | Receive(c: nat, chunk: bytes) | Dispatch(c: nat)
    | Fail(c: nat, ec: Error)
    | Abort(c: nat) | FailWrite(c: nat)

  predicate At(m: Mux, c: nat, pc: Pc) {
    c < |m.calls| && m.calls[c].pc == pc
  }

  predicate Awaiting(m: Mux, c: nat) {
    At(m, c, Reading) && m.calls[c].outcome == None
  }

  predicate Enabled(m: Mux, a: Act) {
    match a
    case Issue(_) => true
    case LockSend(c) => At(m, c, WantSend) && m.sender == None
    case Put(c, n) =>
      c < |m.calls| && m.calls[c].pc.Sending? && 0 < n <= |m.calls[c].frame| - m.calls[c].pc.put
    case UnlockSend(c) => c < |m.calls| && m.calls[c].pc == Sending(|m.calls[c].frame|)
    case Check(c) => At(m, c, Recheck)
    case LockRead(c) => At(m, c, WantRead) && m.reader == None
    case Skip(c) => At(m, c, Reading) && m.calls[c].outcome.Some?
    case Receive(c, chunk) => Awaiting(m, c) && MatchPacket(m.buffer) == None && chunk != []
    case Dispatch(c) => Awaiting(m, c) && MatchPacket(m.buffer).Some?
    case Fail(c, ec) => Awaiting(m, c) && MatchPacket(m.buffer) == None && ec.Failed()
    case Abort(c) => At(m, c, WantSend) || At(m, c, WantRead)
    case FailWrite(c) => c < |m.calls| && m.calls[c].pc.Sending?
  }

  /** A packet too short for a type and a request id. */
  predicate Short(m: Mux) {
    match MatchPacket(m.buffer)
    case Some(n) => n < 9
    case None => false
  }

  function MoveTo(m: Mux, c: nat, pc: Pc): (r: seq<Call>)
    requires c < |m.calls|
  {
    m.calls[c := m.calls[c].(pc := pc)]
  }

  /** The packet matched in the buffer, without its length. */
  function Matched(m: Mux): (body: bytes)
    requires MatchPacket(m.buffer).Some? && !Short(m)
    ensures |body| >= 5
  {
    m.buffer[4..MatchPacket(m.buffer).value]
  }

  /** The first record on the list with the packet's id. */
  function Target(chain: seq<nat>, id: u32): (t: Option<nat>)
    ensures t.Some? ==> t.value in chain && H.IdOf(t.value) == id
  {
    match FindId(H.IdsOf(chain), id)
    case None => None
    case Some(k) => Some(chain[k])
  }

  /** That record receives the packet's type and payload. */
  function Deliver(calls: seq<Call>, chain: seq<nat>, body: bytes): (r: seq<Call>)
    requires |body| >= 5 && forall n <- chain :: n < |calls|
    ensures |r| == |calls|
  {
    match Target(chain, IdIn(body))
    case None => calls
    case Some(t) => calls[t := calls[t].(outcome := Some(Completion(NoError, body[0], body[5..])))]
  }

  /** read_one_ after a match: take type and id, complete the record found, consume. */
  function DispatchOne(m: Mux, c: nat): (r: Mux)
    requires Enabled(m, Dispatch(c)) && !Short(m)
    requires forall n <- m.h.queue.chain :: n < |m.calls|
  {
    var body := Matched(m);
    m.(h := H.Step(m.h, H.Answer(IdIn(body))), reader := None,
       calls := Deliver(MoveTo(m, c, Recheck), m.h.queue.chain, body),
       buffer := m.buffer[4 + |body|..], bodies := m.bodies + [body])
  }

  function CompleteAll(calls: seq<Call>, chain: seq<nat>, done: Completion): (r: seq<Call>)
    ensures |r| == |calls|
  {
    seq(|calls|, i requires 0 <= i < |calls| => if i in chain then calls[i].(outcome := Some(done)) else calls[i])
  }

  function Apply(m: Mux, a: Act): (r: Mux)
    requires Enabled(m, a)
    requires forall n <- m.h.queue.chain :: n < |m.calls|
  {
    match a
    case Issue(frame) => m.(h := H.Step(m.h, H.Issue), calls := m.calls + [Call(frame, WantSend, None)])
    case LockSend(c) => m.(sender := Some(c), calls := MoveTo(m, c, Sending(0)))
    case Put(c, n) =>
      var put := m.calls[c].pc.put;
      m.(out := m.out + m.calls[c].frame[put..put + n], calls := MoveTo(m, c, Sending(put + n)))
    case UnlockSend(c) =>
      m.(sender := None, calls := MoveTo(m, c, Recheck),
         sent := m.sent + [c], sentFrames := m.sentFrames + [m.calls[c].frame])
    case Check(c) => m.(calls := MoveTo(m, c, if m.calls[c].outcome.Some? then Returned else WantRead))
    case LockRead(c) => m.(reader := Some(c), calls := MoveTo(m, c, Reading))
    case Skip(c) => m.(reader := None, calls := MoveTo(m, c, Recheck))
    case Receive(c, chunk) => m.(got := m.got + chunk, buffer := m.buffer + chunk)
    case Dispatch(c) =>
      // read_one_ fails on a short packet and leaves it in the buffer; the loop ends on the error
      if Short(m) then m.(reader := None, calls := MoveTo(m, c, Returned)) else DispatchOne(m, c)
    case Fail(c, ec) =>
      m.(h := H.Step(m.h, H.Cancel), reader := None,
         calls := CompleteAll(MoveTo(m, c, Returned), m.h.queue.chain, Completion(ec, 0, [])))
    // the early exits leave the record on the list
    case Abort(c) => m.(calls := MoveTo(m, c, Aborted))
    case FailWrite(c) => m.(sender := None, torn := true, calls := MoveTo(m, c, Aborted))
  }

  // ----- what every interleaving keeps

  /** The list is the history of this run, and a request is completed iff its record says so. */
  ghost predicate Queued(m: Mux) {
    && H.Inv(m.h) && m.h.issued == |m.calls|
    && forall c | 0 <= c < |m.calls| :: m.h.Done(c) <==> m.calls[c].outcome.Some?
  }

  ghost predicate OneSender(m: Mux) {
    && (forall c | 0 <= c < |m.calls| :: m.calls[c].pc.Sending? <==> m.sender == Some(c))
    && (m.sender.Some? ==>
          var c := m.sender.value;
          c < |m.calls| && m.calls[c].pc.put <= |m.calls[c].frame|)
  }

  ghost predicate OneReader(m: Mux) {
    && (forall c | 0 <= c < |m.calls| :: m.calls[c].pc.Reading? <==> m.reader == Some(c))
    && (m.reader.Some? ==> m.reader.value < |m.calls|)
  }

  /** Each mutex is held by exactly the coroutine that is inside. */
  ghost predicate Exclusive(m: Mux) {
    OneSender(m) && OneReader(m)
  }

  function InFlight(m: Mux): (s: bytes) {
    match m.sender
    case Some(c) =>
      if c < |m.calls| && m.calls[c].pc.Sending? && m.calls[c].pc.put <= |m.calls[c].frame|
      then m.calls[c].frame[..m.calls[c].pc.put] else []
    case None => []
  }

  /** Until a write fails, what was written is whole frames, one per call that got through, and a
      prefix of the frame of the coroutine inside. */
  ghost predicate Output(m: Mux) {
    !m.torn ==> m.out == Concat(m.sentFrames) + InFlight(m)
  }

  predicate Queueing(call: Call) {
    call.pc.WantSend? || call.pc.Sending?
  }

  /** The calls that got through, each once, with their frames. */
  ghost predicate Roster(m: Mux) {
    && |m.sent| == |m.sentFrames|
    && (forall i | 0 <= i < |m.sent| :: m.sent[i] < |m.calls| && m.sentFrames[i] == m.calls[m.sent[i]].frame)
    && H.Once(m.sent)
    && (forall c | 0 <= c < |m.calls| && Queueing(m.calls[c]) :: c !in m.sent)
    && (forall c | 0 <= c < |m.calls| && !Queueing(m.calls[c]) && !m.calls[c].pc.Aborted? :: c in m.sent)
  }

  /** What was read is the dispatched packets in order, and the buffer. */
  ghost predicate Input(m: Mux) {
    m.got == Frames(m.bodies) + m.buffer && forall b <- m.bodies :: WellSized(b)
  }

  /** A record holds either a cancellation or the payload of a packet with its own id. */
  ghost predicate OwnPayload(m: Mux, c: nat)
    requires c < |m.calls|
  {
    match m.calls[c].outcome
    case None => true
    case Some(done) =>
      done.ec.Failed() || (done.ec == NoError && Body(done.tp, H.IdOf(c), done.payload) in m.bodies)
  }

  ghost predicate Inv(m: Mux) {
    && Queued(m) && Exclusive(m) && Output(m) && Roster(m) && Input(m)
    && forall c: nat | c < |m.calls| :: OwnPayload(m, c)
  }

  lemma ChainInRange(m: Mux)
    requires Queued(m)
    ensures forall n <- m.h.queue.chain :: n < |m.calls|
  {
  }

  lemma DeliverChanges(calls: seq<Call>, chain: seq<nat>, body: bytes)
    requires |body| >= 5 && forall n <- chain :: n < |calls|
    ensures var r := Deliver(calls, chain, body);
      forall i | 0 <= i < |calls| ::
        && r[i].frame == calls[i].frame && r[i].pc == calls[i].pc
        && if Target(chain, IdIn(body)) == Some(i)
           then r[i].outcome == Some(Completion(NoError, body[0], body[5..])) && IdIn(body) == H.IdOf(i)
           else r[i].outcome == calls[i].outcome
  {
    hide IdIn, Target;
  }

  lemma AnswerCompletes(h: H.History, id: u32)
    ensures H.Step(h, H.Answer(id)).completions
         == h.completions + match Target(h.queue.chain, id) case None => [] case Some(t) => [t]
    ensures H.Step(h, H.Answer(id)).issued == h.issued
  {
  }

  lemma QueuedStep(m: Mux, a: Act)
    requires Queued(m) && Enabled(m, a) && (forall n <- m.h.queue.chain :: n < |m.calls|)
    ensures Queued(Apply(m, a))
  {
    hide MatchPacket, H.Inv, IdIn;
    match a {
      case Issue(_) => H.StepInv(m.h, H.Issue);
      case Dispatch(c) =>
        if !Short(m) {
          var body := Matched(m);
          H.StepInv(m.h, H.Answer(IdIn(body)));
          AnswerCompletes(m.h, IdIn(body));
          DeliverChanges(MoveTo(m, c, Recheck), m.h.queue.chain, body);
          hide Matched, Deliver, Target, Short, H.Step;
        }
      case Fail(c, ec) => H.StepInv(m.h, H.Cancel);
      case _ =>
    }
  }

  lemma SenderStep(m: Mux, a: Act)
    requires OneSender(m) && Enabled(m, a) && (forall n <- m.h.queue.chain :: n < |m.calls|)
    ensures OneSender(Apply(m, a))
  {
    hide MatchPacket, H.Step, IdIn, Matched, Deliver, Target, Short;
    if a.Dispatch? && !Short(m) {
      DeliverChanges(MoveTo(m, a.c, Recheck), m.h.queue.chain, Matched(m));
    }
  }

  lemma ReaderStep(m: Mux, a: Act)
    requires OneReader(m) && Enabled(m, a) && (forall n <- m.h.queue.chain :: n < |m.calls|)
    ensures OneReader(Apply(m, a))
  {
    hide MatchPacket, H.Step, IdIn, Matched, Deliver, Target, Short;
    if a.Dispatch? && !Short(m) {
      DeliverChanges(MoveTo(m, a.c, Recheck), m.h.queue.chain, Matched(m));
    }
  }

  /** Steps that do not write leave the sender and its call alone. */
  lemma SameInFlight(m: Mux, m': Mux)
    requires OneSender(m) && m'.sender == m.sender
    requires m.sender.Some? ==>
      var c := m.sender.value;
      c < |m'.calls| && m'.calls[c].pc == m.calls[c].pc && m'.calls[c].frame == m.calls[c].frame
    ensures InFlight(m') == InFlight(m)
  {
  }

  lemma OutputStep(m: Mux, a: Act)
    requires OneSender(m) && Output(m) && Enabled(m, a)
    requires forall n <- m.h.queue.chain :: n < |m.calls|
    ensures Output(Apply(m, a))
  {
    hide MatchPacket, H.Step, IdIn, Concat, Matched, Deliver, Target, Short;
    match a {
      case Put(c, n) => PutOutput(m, c, n);
      case LockSend(c) => assert m.calls[c].frame[..0] == [];
      case UnlockSend(c) =>
        var f := m.calls[c].frame;
        ConcatSnoc(m.sentFrames, f);
        assert f[..|f|] == f;
        assert Concat(m.sentFrames) + f + [] == Concat(m.sentFrames) + f;
      case Dispatch(c) =>
        if !Short(m) {
          DeliverChanges(MoveTo(m, c, Recheck), m.h.queue.chain, Matched(m));
        }
        SameInFlight(m, Apply(m, a));
      case FailWrite(c) =>
      case _ => SameInFlight(m, Apply(m, a));
    }
  }

  lemma PutOutput(m: Mux, c: nat, n: nat)
    requires OneSender(m) && Output(m) && Enabled(m, Put(c, n))
    requires forall n <- m.h.queue.chain :: n < |m.calls|
    ensures Output(Apply(m, Put(c, n)))
  {
    hide Concat;
    var f, put := m.calls[c].frame, m.calls[c].pc.put;
    assert f[..put] + f[put..put + n] == f[..put + n];
    Regroup(Concat(m.sentFrames), f[..put], f[put..put + n]);
  }

  /** Nobody gets through, no frame changes. */
  lemma SameRoster(m: Mux, m': Mux)
    requires Roster(m) && m'.sent == m.sent && m'.sentFrames == m.sentFrames && |m'.calls| >= |m.calls|
    requires forall c | 0 <= c < |m.calls| ::
      && m'.calls[c].frame == m.calls[c].frame
      && (m'.calls[c].pc.Aborted? || (!m.calls[c].pc.Aborted? && (Queueing(m'.calls[c]) <==> Queueing(m.calls[c]))))
    requires forall c | |m.calls| <= c < |m'.calls| :: Queueing(m'.calls[c])
    ensures Roster(m')
  {
  }

  lemma RosterStep(m: Mux, a: Act)
    requires Roster(m) && Enabled(m, a)
    requires forall n <- m.h.queue.chain :: n < |m.calls|
    ensures Roster(Apply(m, a))
  {
    hide MatchPacket, H.Step, IdIn, InFlight, Deliver, Target, Short, Matched;
    if a.UnlockSend? {
      assert a.c !in m.sent;
    } else {
      if a.Dispatch? && !Short(m) {
        DeliverChanges(MoveTo(m, a.c, Recheck), m.h.queue.chain, Matched(m));
      }
      hide Roster;
      SameRoster(m, Apply(m, a));
    }
  }

  lemma InputStep(m: Mux, a: Act)
    requires Input(m) && Enabled(m, a) && (forall n <- m.h.queue.chain :: n < |m.calls|)
    ensures Input(Apply(m, a))
  {
    hide H.Step, IdIn, Frames;
    match a {
      case Dispatch(c) =>
        if !Short(m) {
          MatchIsFrame(m.buffer);
          var n := MatchPacket(m.buffer).value;
          var body := Matched(m);
          FramesAppend(m.bodies, [body]);
          FramesOne(body);
          hide MatchPacket, Matched, Deliver, Frame;
          assert (Frames(m.bodies) + m.buffer[..n]) + m.buffer[n..] == Frames(m.bodies) + m.buffer by {
            assert m.buffer[..n] + m.buffer[n..] == m.buffer;
          }
        }
      case Receive(c, chunk) =>
        hide MatchPacket;
        assert (Frames(m.bodies) + m.buffer) + chunk == Frames(m.bodies) + (m.buffer + chunk);
      case _ =>
    }
  }

  lemma FramesOne(body: bytes)
    ensures Frames([body]) == Frame(body)
  {
    hide Frame;
    FramesCons(body, []);
    assert [body] + [] == [body];
  }

  lemma OwnStep(m: Mux, a: Act)
    requires Queued(m) && Enabled(m, a) && (forall n <- m.h.queue.chain :: n < |m.calls|)
    requires forall c: nat | c < |m.calls| :: OwnPayload(m, c)
    ensures forall c: nat | c < |Apply(m, a).calls| :: OwnPayload(Apply(m, a), c)
  {
    hide MatchPacket, H.Inv, H.Step, IdIn, Queued, Body;
    var m' := Apply(m, a);
    assert forall b <- m.bodies :: b in m'.bodies;
    if a.Dispatch? && !Short(m) {
      var body := Matched(m);
      BodyFrom(body);
      DeliverChanges(MoveTo(m, a.c, Recheck), m.h.queue.chain, body);
      hide Matched, Deliver, Target, Short;
      assert body in m'.bodies;
      forall i: nat | i < |m'.calls|
        ensures OwnPayload(m', i)
      {
        assert OwnPayload(m, i);
      }
    } else {
      forall i: nat | i < |m'.calls|
        ensures OwnPayload(m', i)
      {
        if i < |m.calls| {
          assert OwnPayload(m, i);
        }
      }
    }
  }

  /** Every step of every interleaving keeps all of it. */
  lemma StepKeeps(m: Mux, a: Act)
    requires Inv(m) && Enabled(m, a)
    ensures forall n <- m.h.queue.chain :: n < |m.calls|
    ensures Inv(Apply(m, a))
  {
    ChainInRange(m);
    QueuedStep(m, a);
    SenderStep(m, a);
    ReaderStep(m, a);
    OutputStep(m, a);
    RosterStep(m, a);
    InputStep(m, a);
    OwnStep(m, a);
    hide Queued, Exclusive, Output, Roster, Input, OwnPayload, Apply, Enabled;
  }

  // ----- whole runs

  ghost predicate Legal(m: Mux, acts: seq<Act>)
    requires Inv(m)
    decreases |acts|
  {
    acts == [] ||
    (Enabled(m, acts[0]) && (StepKeeps(m, acts[0]); Legal(Apply(m, acts[0]), acts[1..])))
  }

  ghost function After(m: Mux, acts: seq<Act>): (r: Mux)
    requires Inv(m) && Legal(m, acts)
    ensures Inv(r)
    decreases |acts|
  {
    if acts == [] then m
    else
      StepKeeps(m, acts[0]);
      After(Apply(m, acts[0]), acts[1..])
  }

  lemma StartInv()
    ensures Inv(START)
  {
  }

  /** Whatever the interleaving, whatever bytes arrive and whoever is cancelled: until a write
      fails the stream written is whole frames and at most one prefix, the stream read is the
      dispatched packets and the buffer, and no coroutine ever holds a payload that did not come
      in a packet with its own id. */
  lemma Safety(acts: seq<Act>, c: nat)
    requires Inv(START) && Legal(START, acts) && c < |After(START, acts).calls|
    ensures var m := After(START, acts);
      && (!m.torn ==> m.out == Concat(m.sentFrames) + InFlight(m))
      && m.got == Frames(m.bodies) + m.buffer
      && (m.calls[c].outcome.Some? && !m.calls[c].outcome.value.ec.Failed() ==>
            exists body <- m.bodies ::
              body == Body(m.calls[c].outcome.value.tp, H.IdOf(c), m.calls[c].outcome.value.payload))
  {
    var m := After(START, acts);
    assert OwnPayload(m, c);
  }

  /** A coroutine returns with its record untouched exactly when it read a packet too short to
      carry an id, or when its own read failed after its record had dropped off the list. */
  lemma EmptyHanded(m: Mux, a: Act, c: nat)
    requires Inv(m) && Enabled(m, a) && c < |m.calls| && m.calls[c].pc != Returned
    requires forall n <- m.h.queue.chain :: n < |m.calls|
    ensures At(Apply(m, a), c, Returned) && Apply(m, a).calls[c].outcome == None
       <==> (a == Dispatch(c) && Short(m)) || (a.Fail? && a.c == c && H.Lost(m.h, c))
  {
    hide MatchPacket, IdIn, Output, Roster, Input, OwnPayload, H.Step, InFlight;
    if a.Dispatch? && !Short(m) {
      DeliverChanges(MoveTo(m, a.c, Recheck), m.h.queue.chain, Matched(m));
      hide Matched, Deliver, Target, Short;
    }
  }

  predicate Gone(call: Call) {
    call.pc.Returned? || call.pc.Aborted?
  }

  /** A step that neither fails nor reads a packet without an id. */
  predicate Sound(m: Mux, a: Act) {
    !a.Fail? && !a.Abort? && !a.FailWrite? && !(a.Dispatch? && Short(m))
  }

  ghost predicate Healthy(m: Mux, acts: seq<Act>)
    requires Inv(m) && Legal(m, acts)
    decreases |acts|
  {
    acts == [] ||
    (Sound(m, acts[0]) &&
     (StepKeeps(m, acts[0]); Healthy(Apply(m, acts[0]), acts[1..])))
  }

  lemma LostStep(m: Mux, a: Act, c: nat)
    requires Inv(m) && Enabled(m, a) && H.Lost(m.h, c) && !Gone(m.calls[c])
    requires forall n <- m.h.queue.chain :: n < |m.calls|
    requires Sound(m, a)
    ensures var m' := Apply(m, a);
      c < |m'.calls| && H.Lost(m'.h, c) && !Gone(m'.calls[c])
  {
    hide Output, Roster, Input, OwnPayload, OneSender, OneReader, H.Step, InFlight, MatchPacket, IdIn, Deliver,
         Target, Matched, Short;
    EmptyHanded(m, a, c);
    QueuedStep(m, a);
    match a {
      case Issue(_) => H.LostStaysLost(m.h, c, H.Issue);
      case Dispatch(d) =>
        H.LostStaysLost(m.h, c, H.Answer(IdIn(Matched(m))));
        DeliverChanges(MoveTo(m, d, Recheck), m.h.queue.chain, Matched(m));
      case _ =>
    }
    hide H.Inv;
  }

  /** A coroutine whose record dropped off the list waits for ever. */
  lemma {:induction false} LostWaits(m: Mux, acts: seq<Act>, c: nat)
    requires Inv(m) && Legal(m, acts) && Healthy(m, acts)
    requires H.Lost(m.h, c) && !Gone(m.calls[c])
    ensures var m' := After(m, acts); c < |m'.calls| && !Gone(m'.calls[c])
    decreases |acts|
  {
    hide H.Lost, Enabled, Sound, Gone;
    if acts != [] {
      StepKeeps(m, acts[0]);
      LostStep(m, acts[0], c);
      hide Inv, Apply;
      LostWaits(Apply(m, acts[0]), acts[1..], c);
    } else {
      assert c < |m.calls| by {
        LostIssued(m, c);
      }
    }
  }

  lemma LostIssued(m: Mux, c: nat)
    requires Inv(m) && H.Lost(m.h, c)
    ensures c < |m.calls|
  {
  }

  // ----- runs in which a call comes back empty-handed, or never

  ghost predicate Reachable(m: Mux) {
    Inv(START) && exists acts :: Legal(START, acts) && After(START, acts) == m
  }

  lemma {:induction false} Snoc(m: Mux, acts: seq<Act>, a: Act)
    requires Inv(m) && Legal(m, acts) && Enabled(After(m, acts), a)
    ensures forall n <- After(m, acts).h.queue.chain :: n < |After(m, acts).calls|
    ensures Legal(m, acts + [a]) && After(m, acts + [a]) == Apply(After(m, acts), a)
    decreases |acts|
  {
    hide Inv, Enabled, Apply;
    if acts == [] {
      StepKeeps(m, a);
      assert ([] + [a])[1..] == [];
      assert After(Apply(m, a), ([] + [a])[1..]) == Apply(m, a);
    } else {
      StepKeeps(m, acts[0]);
      assert (acts + [a])[1..] == acts[1..] + [a];
      Snoc(Apply(m, acts[0]), acts[1..], a);
    }
  }

  lemma Then(m: Mux, a: Act) returns (m': Mux)
    requires Reachable(m) && Enabled(m, a)
    ensures Inv(m) && (forall n <- m.h.queue.chain :: n < |m.calls|)
    ensures m' == Apply(m, a) && Reachable(m')
  {
    hide Inv, Apply, Enabled, Legal;
    var acts :| Legal(START, acts) && After(START, acts) == m;
    Snoc(START, acts, a);
    m' := Apply(m, a);
    assert After(START, acts + [a]) == m';
  }

  lemma Begin() returns (m: Mux)
    ensures m == START && Reachable(m)
  {
    StartInv();
    m := START;
    hide Inv;
    assert Legal(START, []) && After(START, []) == START;
  }

  /** A call takes the first mutex, writes its frame and lets go. */
  lemma SendWhole(m: Mux, c: nat) returns (m': Mux)
    requires Reachable(m) && At(m, c, WantSend) && m.sender == None && m.calls[c].frame != []
    ensures Reachable(m')
    ensures m' == m.(calls := MoveTo(m, c, Recheck), sent := m.sent + [c],
                     sentFrames := m.sentFrames + [m.calls[c].frame], out := m.out + m.calls[c].frame)
  {
    hide Reachable;
    var f := m.calls[c].frame;
    m' := Then(m, LockSend(c));
    m' := Then(m', Put(c, |f|));
    assert f[0..0 + |f|] == f;
    m' := Then(m', UnlockSend(c));
  }

  /** It finds its record untouched and takes the second mutex. */
  lemma StartReading(m: Mux, c: nat) returns (m': Mux)
    requires Reachable(m) && At(m, c, Recheck) && m.calls[c].outcome == None && m.reader == None
    ensures Reachable(m') && m' == m.(reader := Some(c), calls := MoveTo(m, c, Reading))
  {
    hide Reachable;
    m' := Then(m, Check(c));
    m' := Then(m', LockRead(c));
  }

  lemma IssueOne(m: Mux, frame: bytes) returns (m': Mux)
    requires Reachable(m)
    ensures Reachable(m')
    ensures m' == m.(h := H.Step(m.h, H.Issue), calls := m.calls + [Call(frame, WantSend, None)])
  {
    hide Reachable;
    m' := Then(m, Issue(frame));
  }

  lemma EmptyPacketIsShort()
    ensures MatchPacket([]) == None && MatchPacket([] + Frame([])) == Some(4) && Frame([]) != []
  {
    assert [] + Frame([]) == Frame([]) + [];
    MatchFrame([], []);
    hide U32, Narrow;
  }

  /** One request, whatever it is; the peer sends an empty packet. The call returns, and nothing
      has ever been put in its record. */
  lemma ShortPacketRun(frame: bytes) returns (m: Mux)
    requires frame != []
    ensures Reachable(m) && m.calls == [Call(frame, Returned, None)]
  {
    hide Reachable, H.Step, MatchPacket, Frame;
    m := OneReading(frame);
    EmptyPacketIsShort();
    m := Then(m, Receive(0, Frame([])));
    m := Then(m, Dispatch(0));
  }

  lemma OneReading(frame: bytes) returns (m: Mux)
    requires frame != []
    ensures Reachable(m) && m.calls == [Call(frame, Reading, None)] && m.buffer == []
  {
    hide Reachable, H.Step;
    m := Begin();
    m := IssueOne(m, frame);
    assert m.calls == [Call(frame, WantSend, None)];
    m := SendWhole(m, 0);
    m := StartReading(m, 0);
  }

  /** Two requests; the server answers the younger first, and then a third is issued. The first
      call is left waiting with its record off the list. */
  lemma StrandedRun(frame: bytes, tp: byte, payload: bytes) returns (m: Mux)
    requires frame != [] && 9 + |payload| < TWO_32
    ensures Reachable(m) && H.Lost(m.h, 0)
    ensures m.calls == [Call(frame, Recheck, None), Call(frame, Recheck, Some(Completion(NoError, tp, payload))),
                        Call(frame, WantSend, None)]
    ensures m.reader == None && m.buffer == []
  {
    hide Reachable, H.Step, H.Lost;
    m := TwoSent(frame);
    m := YoungerAnswered(m, frame, tp, payload);
    m := IssueOne(m, frame);
    ThirdIssued();
  }

  lemma ThirdIssued()
    ensures H.Lost(H.Step(H.Step(H.Step(H.Step(H.START, H.Issue), H.Issue), H.Answer(1)), H.Issue), 0)
  {
    H.TwoIssued();
    H.AnswerYounger(H.Step(H.Step(H.START, H.Issue), H.Issue));
    hide H.Step;
  }

  lemma TwoSent(frame: bytes) returns (m: Mux)
    requires frame != []
    ensures Reachable(m) && m.calls == [Call(frame, Reading, None), Call(frame, Recheck, None)]
    ensures m.h == H.Step(H.Step(H.START, H.Issue), H.Issue)
    ensures m.reader == Some(0) && m.buffer == []
  {
    m := Begin();
    hide Reachable, H.Step;
    m := IssueOne(m, frame);
    m := IssueOne(m, frame);
    assert m.calls == [Call(frame, WantSend, None), Call(frame, WantSend, None)];
    m := SendWhole(m, 0);
    m := SendWhole(m, 1);
    m := StartReading(m, 0);
  }

  lemma YoungerAnswered(m: Mux, frame: bytes, tp: byte, payload: bytes) returns (m': Mux)
    requires Reachable(m) && m.calls == [Call(frame, Reading, None), Call(frame, Recheck, None)]
    requires m.h == H.Step(H.Step(H.START, H.Issue), H.Issue)
    requires m.reader == Some(0) && m.buffer == [] && 9 + |payload| < TWO_32
    ensures Reachable(m') && m'.reader == None && m'.buffer == []
    ensures m'.h == H.Step(m.h, H.Answer(1))
    ensures m'.calls == [Call(frame, Recheck, None), Call(frame, Recheck, Some(Completion(NoError, tp, payload)))]
  {
    hide Reachable, H.Step, MatchPacket, Frame, Body, IdIn, FindId, H.IdsOf, Target;
    var body := Body(tp, 1, payload);
    BodyParts(tp, 1, payload);
    OnePacket(body);
    H.TwoIssued();
    TargetYounger();
    m' := Then(m, Receive(0, Frame(body)));
    m' := Then(m', Dispatch(0));
  }

  lemma TargetYounger()
    ensures Target([0, 1], 1) == Some(1)
  {
    H.FindYounger();
    hide FindId, H.IdsOf;
  }

  /** An empty buffer, and a whole packet in it. */
  lemma OnePacket(body: bytes)
    requires WellSized(body)
    ensures MatchPacket([]) == None && Frame(body) != []
    ensures MatchPacket([] + Frame(body)) == Some(4 + |body|)
    ensures ([] + Frame(body))[4..4 + |body|] == body && ([] + Frame(body))[4 + |body|..] == []
  {
    assert [] + Frame(body) == Frame(body) + [];
    MatchFrame(body, []);
    hide U32, Narrow;
  }

  /** If the first call reads on and the read fails, it returns as if nothing had happened. */
  lemma StrandedFails(frame: bytes, tp: byte, payload: bytes) returns (m: Mux)
    requires frame != [] && 9 + |payload| < TWO_32
    ensures Reachable(m) && At(m, 0, Returned) && m.calls[0].outcome == None
  {
    hide Reachable, H.Step, H.Lost, MatchPacket, Frame;
    m := StrandedRun(frame, tp, payload);
    m := StartReading(m, 0);
    EmptyPacketIsShort();
    OffTheList(m, 0);
    m := Then(m, Fail(0, Eof));
  }

  lemma OffTheList(m: Mux, c: nat)
    requires H.Lost(m.h, c)
    ensures c !in m.h.queue.chain
  {
  }
}
