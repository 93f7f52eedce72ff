/** The multiplexer against a server that keeps the protocol: every request is answered exactly
    once, in any order, at any time after it has been written; the replies arrive in pieces of
    any size. Clients issue requests with the discipline that RequestHistory shows to be the
    exact condition under which no record drops off the list. Then nobody waits for ever. */
module ClientLiveness {
  import opened Wire
  import opened Cursors
  import opened Framing
  import opened Packets
  import opened ResponseQueues
  import opened ClientMux
  import H = RequestHistory

  /** What the server will answer to a call. */
  datatype Reply = Reply(tp: byte, payload: bytes)

  type Server = nat -> Reply

  function BodyOf(ans: Server, c: nat): (s: bytes) {
    Body(ans(c).tp, H.IdOf(c), ans(c).payload)
  }

  function Bodies(ans: Server, cs: seq<nat>): (s: seq<bytes>)
    ensures |s| == |cs|
  {
    seq(|cs|, i requires 0 <= i < |cs| => BodyOf(ans, cs[i]))
  }

  ghost predicate Sized(ans: Server) {
    forall c: nat :: WellSized(BodyOf(ans, c))
  }

  /** The client, the calls answered so far in the order of the answers, and the bytes sent but
      not yet read. */
  datatype Net = Net(m: Mux, replies: seq<nat>, wire: bytes)

  datatype Move = Client(a: Act) | Answer(c: nat)

  predicate Written(m: Mux, c: nat) {
    c in m.sent || (c < |m.calls| && m.calls[c].pc == Sending(|m.calls[c].frame|))
  }

  ghost predicate CanMove(s: Net, v: Move) {
    match v
    case Client(a) =>
      && Enabled(s.m, a) && !a.Fail? && !a.Abort? && !a.FailWrite?
      && (a.Receive? ==> a.chunk <= s.wire)
      && (a.Issue? ==> !H.Careless(s.m.h, H.Issue) && |s.m.h.queue.chain| < TWO_32)
    case Answer(c) => Written(s.m, c) && c !in s.replies
  }

  function Next(ans: Server, s: Net, v: Move): (r: Net)
    requires match v case Client(a) => Enabled(s.m, a) && (a.Receive? ==> a.chunk <= s.wire) case Answer(_) => true
    requires forall n <- s.m.h.queue.chain :: n < |s.m.calls|
  {
    match v
    case Client(a) => Net(Apply(s.m, a), s.replies, if a.Receive? then s.wire[|a.chunk|..] else s.wire)
    case Answer(c) => Net(s.m, s.replies + [c], s.wire + Frame(BodyOf(ans, c)))
  }

  // ----- the invariant

  /** Packets dispatched so far. */
  function Handled(s: Net): (n: nat) {
    |s.m.bodies|
  }

  ghost predicate Answered(s: Net) {
    && H.Once(s.replies)
    && (forall c <- s.replies :: c < |s.m.calls| && Written(s.m, c))
  }

  /** What is buffered and what is still to come is whole replies. */
  ghost predicate Stream(ans: Server, s: Net) {
    && Handled(s) <= |s.replies|
    && s.m.buffer + s.wire == Frames(Bodies(ans, s.replies[Handled(s)..]))
  }

  /** The calls completed are the ones whose reply was dispatched, each with its own reply. */
  ghost predicate Served(ans: Server, s: Net) {
    && Handled(s) <= |s.replies|
    && s.m.h.completions == s.replies[..Handled(s)]
    && forall c | 0 <= c < |s.m.calls| && s.m.calls[c].outcome.Some? ::
         s.m.calls[c].outcome.value == Completion(NoError, ans(c).tp, ans(c).payload)
  }

  ghost predicate Kept(s: Net) {
    && H.Lossless(s.m.h) && |s.m.h.queue.chain| <= TWO_32
    && forall c | 0 <= c < |s.m.calls| && Gone(s.m.calls[c]) ::
         s.m.calls[c].pc == Returned && s.m.calls[c].outcome.Some?
  }

  ghost predicate NetInv(ans: Server, s: Net) {
    Inv(s.m) && Answered(s) && Stream(ans, s) && Served(ans, s) && Kept(s)
  }

  lemma BodiesSnoc(ans: Server, cs: seq<nat>, c: nat)
    ensures Bodies(ans, cs + [c]) == Bodies(ans, cs) + [BodyOf(ans, c)]
  {
    hide BodyOf;
  }

  lemma BodiesHead(ans: Server, cs: seq<nat>)
    requires cs != []
    ensures Bodies(ans, cs) == [BodyOf(ans, cs[0])] + Bodies(ans, cs[1..])
  {
    hide BodyOf;
  }

  /** A match in the buffer is the next reply, whole. */
  lemma NextReply(ans: Server, s: Net)
    requires Sized(ans) && Stream(ans, s) && MatchPacket(s.m.buffer).Some?
    ensures Handled(s) < |s.replies|
    ensures var body := BodyOf(ans, s.replies[Handled(s)]);
      && MatchPacket(s.m.buffer) == Some(4 + |body|) && !Short(s.m) && Matched(s.m) == body
      && s.m.buffer[4 + |body|..] + s.wire == Frames(Bodies(ans, s.replies[Handled(s) + 1..]))
  {
    var todo := s.replies[Handled(s)..];
    MatchStable(s.m.buffer, s.wire);
    assert todo != [];
    var body, rest := BodyOf(ans, todo[0]), Bodies(ans, todo[1..]);
    BodiesHead(ans, todo);
    FramesCons(body, rest);
    assert WellSized(body) && |body| >= 5;
    MatchFrame(body, Frames(rest));
    hide MatchPacket, BodyOf, Frames, Frame;
    var n := 4 + |body|;
    var all := s.m.buffer + s.wire;
    assert all[4..n] == s.m.buffer[4..n];
    assert all[n..] == s.m.buffer[n..] + s.wire;
    assert todo[1..] == s.replies[Handled(s) + 1..];
  }

  /** The dispatch completes exactly the call the reply answers. */
  lemma DispatchServes(ans: Server, s: Net, c: nat)
    requires NetInv(ans, s) && Sized(ans) && CanMove(s, Client(Dispatch(c)))
    requires forall n <- s.m.h.queue.chain :: n < |s.m.calls|
    ensures Handled(s) < |s.replies|
    ensures var d := s.replies[Handled(s)];
      && !s.m.h.Done(d) && Target(s.m.h.queue.chain, H.IdOf(d)) == Some(d)
      && !Short(s.m) && Matched(s.m) == BodyOf(ans, d) && IdIn(Matched(s.m)) == H.IdOf(d)
  {
    hide MatchPacket, BodyOf, IdIn, Matched, Stream, Short, Output, Input, Roster, OwnPayload, Exclusive, H.Inv,
         FindId, H.IdOf;
    NextReply(ans, s);
    var d := s.replies[Handled(s)];
    OnceSplit(s.replies, Handled(s));
    assert !s.m.h.Done(d);
    assert d in s.replies && d < s.m.h.issued && !H.Lost(s.m.h, d);
    H.AnswerSelects(s.m.h, d);
    IdOfBody(ans, d);
    LowOf(s.m.h, d);
  }

  lemma LowOf(h: H.History, d: nat)
    requires H.Inv(h) && d in h.queue.chain
    ensures 0 <= d - H.Low(h) < |h.queue.chain| && h.queue.chain[d - H.Low(h)] == d
  {
    hide FindId;
  }

  lemma OnceSplit(s: seq<nat>, k: nat)
    requires H.Once(s) && k < |s|
    ensures s[k] !in s[..k]
  {
  }

  lemma IdOfBody(ans: Server, d: nat)
    ensures |BodyOf(ans, d)| >= 5 && IdIn(BodyOf(ans, d)) == H.IdOf(d)
    ensures BodyOf(ans, d)[0] == ans(d).tp && BodyOf(ans, d)[5..] == ans(d).payload
  {
    BodyParts(ans(d).tp, H.IdOf(d), ans(d).payload);
  }

  lemma AnsweredStep(ans: Server, s: Net, v: Move)
    requires NetInv(ans, s) && CanMove(s, v) && (forall n <- s.m.h.queue.chain :: n < |s.m.calls|)
    ensures Answered(Next(ans, s, v))
  {
    match v {
      case Client(a) => WrittenStays(s.m, a);
      case Answer(c) =>
    }
    hide Apply, Enabled, MatchPacket, BodyOf, Stream, Served, Kept, Queued, Exclusive, Output, Input, OwnPayload, Frame;
  }

  lemma WrittenStays(m: Mux, a: Act)
    requires Inv(m) && Enabled(m, a) && !a.FailWrite? && (forall n <- m.h.queue.chain :: n < |m.calls|)
    ensures |Apply(m, a).calls| >= |m.calls|
    ensures forall c: nat | Written(m, c) :: Written(Apply(m, a), c)
  {
    hide MatchPacket, H.Step, IdIn, Output, Input, OwnPayload, Queued, InFlight;
    if a.Dispatch? && !Short(m) {
      DeliverChanges(MoveTo(m, a.c, Recheck), m.h.queue.chain, Matched(m));
      hide Matched, Deliver, Target, Short;
    }
  }

  lemma StreamStep(ans: Server, s: Net, v: Move)
    requires NetInv(ans, s) && Sized(ans) && CanMove(s, v) && (forall n <- s.m.h.queue.chain :: n < |s.m.calls|)
    ensures Stream(ans, Next(ans, s, v))
  {
    hide MatchPacket, BodyOf, H.Step, IdIn, Served, Kept, Inv, Answered, Frame, Frames, Bodies, Matched, Deliver, Short;
    var k := Handled(s);
    match v {
      case Client(a) =>
        if a.Dispatch? {
          NextReply(ans, s);
        } else if a.Receive? {
          assert (s.m.buffer + a.chunk) + s.wire[|a.chunk|..] == s.m.buffer + s.wire;
        }
      case Answer(c) =>
        assert (s.replies + [c])[k..] == s.replies[k..] + [c];
        BodiesSnoc(ans, s.replies[k..], c);
        FramesAppend(Bodies(ans, s.replies[k..]), [BodyOf(ans, c)]);
        FramesOne(BodyOf(ans, c));
        assert (s.m.buffer + s.wire) + Frame(BodyOf(ans, c)) == s.m.buffer + (s.wire + Frame(BodyOf(ans, c)));
    }
  }

  lemma ServedStep(ans: Server, s: Net, v: Move)
    requires NetInv(ans, s) && Sized(ans) && CanMove(s, v) && (forall n <- s.m.h.queue.chain :: n < |s.m.calls|)
    ensures Served(ans, Next(ans, s, v))
  {
    hide MatchPacket, BodyOf, IdIn, Stream, Kept, Inv, Answered, Frame, Matched, Deliver, Short, Target, H.Step, H.IdOf;
    var k := Handled(s);
    match v {
      case Client(a) =>
        if a.Dispatch? {
          DispatchServes(ans, s, a.c);
          var d := s.replies[k];
          IdOfBody(ans, d);
          AnswerCompletes(s.m.h, H.IdOf(d));
          DeliverChanges(MoveTo(s.m, a.c, Recheck), s.m.h.queue.chain, Matched(s.m));
          assert s.replies[..k + 1] == s.replies[..k] + [d];
        } else {
          IssueCompletes(s.m.h);
        }
      case Answer(c) => assert (s.replies + [c])[..k] == s.replies[..k];
    }
  }

  lemma IssueCompletes(h: H.History)
    ensures H.Step(h, H.Issue).completions == h.completions
  {
  }

  lemma KeptStep(ans: Server, s: Net, v: Move)
    requires NetInv(ans, s) && Sized(ans) && CanMove(s, v) && (forall n <- s.m.h.queue.chain :: n < |s.m.calls|)
    ensures Kept(Next(ans, s, v))
  {
    hide MatchPacket, BodyOf, IdIn, Stream, Served, Answered, Frame, Matched, Deliver, Short, Target, FindId,
         H.Lossless, H.Careless, Output, Input, Roster, OwnPayload, H.Inv, H.Step;
    match v {
      case Client(a) =>
        match a {
          case Issue(_) =>
            H.LossStep(s.m.h, H.Issue);
            ChainGrows(s.m.h, H.Issue);
          case Dispatch(c) =>
            NextReply(ans, s);
            var body := Matched(s.m);
            H.LossStep(s.m.h, H.Answer(IdIn(body)));
            ChainGrows(s.m.h, H.Answer(IdIn(body)));
            NotCareless(s.m.h, IdIn(body));
            DeliverChanges(MoveTo(s.m, c, Recheck), s.m.h.queue.chain, body);
          case _ =>
        }
      case Answer(c) =>
    }
  }

  lemma ChainGrows(h: H.History, op: H.Op)
    ensures |H.Step(h, op).queue.chain| <= |h.queue.chain| + if op.Issue? then 1 else 0
  {
  }

  lemma NotCareless(h: H.History, id: u32)
    ensures !H.Careless(h, H.Answer(id))
  {
  }

  /** Every step keeps the invariant: no call is lost, none gets another's reply. */
  lemma NetStep(ans: Server, s: Net, v: Move)
    requires NetInv(ans, s) && Sized(ans) && CanMove(s, v)
    ensures forall n <- s.m.h.queue.chain :: n < |s.m.calls|
    ensures NetInv(ans, Next(ans, s, v))
  {
    ChainInRange(s.m);
    AnsweredStep(ans, s, v);
    StreamStep(ans, s, v);
    ServedStep(ans, s, v);
    KeptStep(ans, s, v);
    match v {
      case Client(a) => StepKeeps(s.m, a);
      case Answer(_) =>
    }
    hide Inv, Answered, Stream, Served, Kept, Apply, Enabled;
  }

  /** Each packet read removes exactly one call from the pending ones: the one it answers. */
  lemma DispatchShrinks(ans: Server, s: Net, c: nat)
    requires NetInv(ans, s) && Sized(ans) && CanMove(s, Client(Dispatch(c)))
    requires forall n <- s.m.h.queue.chain :: n < |s.m.calls|
    ensures Handled(s) < |s.replies|
    ensures var d, s' := s.replies[Handled(s)], Next(ans, s, Client(Dispatch(c)));
      !s.m.h.Done(d) && s'.m.h.completions == s.m.h.completions + [d]
  {
    DispatchServes(ans, s, c);
    AnswerCompletes(s.m.h, H.IdOf(s.replies[Handled(s)]));
    hide MatchPacket, BodyOf, IdIn, NetInv, Deliver, Target, FindId, Matched, Short;
  }

  // ----- nobody waits for ever

  predicate Issues(v: Move) {
    v.Client? && v.a.Issue?
  }

  /** Whoever has not returned, somebody can take a step: write, read, dispatch or recheck, or
      the server can answer. */
  lemma Progress(ans: Server, s: Net, c: nat) returns (v: Move)
    requires NetInv(ans, s) && Sized(ans) && c < |s.m.calls| && s.m.calls[c].pc != Returned
    ensures CanMove(s, v) && !Issues(v)
  {
    hide MatchPacket, BodyOf, Stream, Served, H.Inv, Output, Input, OwnPayload, H.Lossless, Queued;
    match s.m.calls[c].pc {
      case WantSend =>
        v := if s.m.sender.Some? then WriterMoves(s.m.sender.value, s.m) else Client(LockSend(c));
      case Sending(_) => v := WriterMoves(c, s.m);
      case Recheck => v := Client(Check(c));
      case WantRead =>
        if s.m.reader.Some? {
          v := ReaderMoves(ans, s, s.m.reader.value);
        } else {
          v := Client(LockRead(c));
        }
      case Reading => v := ReaderMoves(ans, s, c);
    }
  }

  function WriterMoves(c: nat, m: Mux): (v: Move)
    requires Exclusive(m) && m.sender == Some(c) && c < |m.calls|
    ensures v.Client? && Enabled(m, v.a) && (v.a.Put? || v.a.UnlockSend?)
  {
    var put := m.calls[c].pc.put;
    if put < |m.calls[c].frame| then Client(Put(c, 1)) else Client(UnlockSend(c))
  }

  lemma ReaderMoves(ans: Server, s: Net, c: nat) returns (v: Move)
    requires NetInv(ans, s) && Sized(ans) && ClientMux.At(s.m, c, Reading)
    ensures CanMove(s, v) && !Issues(v)
  {
    hide BodyOf, H.Inv, Output, Input, OwnPayload, H.Lossless, MatchPacket;
    if s.m.calls[c].outcome.Some? {
      v := Client(Skip(c));
    } else if MatchPacket(s.m.buffer).Some? {
      v := Client(Dispatch(c));
    } else if s.wire != [] {
      assert s.wire[..1] <= s.wire && s.wire[..1] != [];
      v := Client(Receive(c, s.wire[..1]));
    } else if c !in s.replies {
      v := Answer(c);
    } else {
      Undispatched(ans, s, c);
    }
  }

  /** If the reply of an unserved call has been sent, it is not all read yet. */
  lemma Undispatched(ans: Server, s: Net, c: nat)
    requires NetInv(ans, s) && Sized(ans) && c < |s.m.calls| && s.m.calls[c].outcome == None
    requires c in s.replies && s.wire == []
    ensures MatchPacket(s.m.buffer).Some?
  {
    hide BodyOf, MatchPacket, H.Inv, Output, Input, Roster, OwnPayload;
    var k := Handled(s);
    assert s.replies == s.replies[..k] + s.replies[k..];
    assert !s.m.h.Done(c) && s.replies[k..] != [];
    var todo := s.replies[k..];
    BodiesHead(ans, todo);
    FramesCons(BodyOf(ans, todo[0]), Bodies(ans, todo[1..]));
    MatchFrame(BodyOf(ans, todo[0]), Frames(Bodies(ans, todo[1..])));
    hide Frames, Frame, Bodies;
    assert s.m.buffer + s.wire == s.m.buffer;
  }

  // ----- a bound on every run

  function Total(w: seq<nat>): (n: nat) {
    if w == [] then 0 else w[0] + Total(w[1..])
  }

  lemma {:induction false} TotalUpdate(w: seq<nat>, i: nat, v: nat)
    requires i < |w|
    ensures Total(w[i := v]) == Total(w) - w[i] + v
  {
    if i == 0 {
      assert w[0 := v][1..] == w[1..];
    } else {
      assert w[i := v][1..] == w[1..][i - 1 := v];
      TotalUpdate(w[1..], i - 1, v);
    }
  }

  function Rank(call: Call): (n: nat) {
    match call.pc
    case WantSend => 5 + |call.frame|
    case Sending(put) => if put <= |call.frame| then 4 + |call.frame| - put else 0
    case Recheck => if call.outcome.Some? then 1 else 2
    case WantRead => if call.outcome.Some? then 3 else 1
    case Reading => if call.outcome.Some? then 2 else 0
    case Returned => 0
    case Aborted => 0
  }

  function Weight(ans: Server, s: Net, c: nat): (n: nat)
    requires c < |s.m.calls|
  {
    Rank(s.m.calls[c]) + if c in s.replies then 0 else 6 + |Frame(BodyOf(ans, c))|
  }

  function Weights(ans: Server, s: Net): (w: seq<nat>)
    ensures |w| == |s.m.calls|
    ensures forall i | 0 <= i < |w| :: w[i] == Weight(ans, s, i)
  {
    seq(|s.m.calls|, i requires 0 <= i < |s.m.calls| => Weight(ans, s, i))
  }

  /** Steps left, at most: of the coroutines, of the server, of the packets on their way. */
  function Measure(ans: Server, s: Net): (n: int) {
    Total(Weights(ans, s)) + 5 * (|s.replies| - Handled(s)) + |s.wire|
  }

  /** One call changes. */
  lemma OneChanges(ans: Server, s: Net, s': Net, c: nat)
    requires |s'.m.calls| == |s.m.calls| && c < |s.m.calls|
    requires forall i | 0 <= i < |s.m.calls| && i != c :: Weight(ans, s', i) == Weight(ans, s, i)
    ensures Total(Weights(ans, s')) == Total(Weights(ans, s)) - Weight(ans, s, c) + Weight(ans, s', c)
  {
    hide Weight;
    TotalUpdate(Weights(ans, s), c, Weight(ans, s', c));
    assert Weights(ans, s') == Weights(ans, s)[c := Weight(ans, s', c)];
  }

  /** Every step but the issue of a new request uses up some of the bound. */
  lemma StepDecreases(ans: Server, s: Net, v: Move)
    requires NetInv(ans, s) && Sized(ans) && CanMove(s, v) && !Issues(v)
    requires forall n <- s.m.h.queue.chain :: n < |s.m.calls|
    ensures Measure(ans, Next(ans, s, v)) < Measure(ans, s)
  {
    match v {
      case Client(a) =>
        if a.Dispatch? {
          DispatchDecreases(ans, s, a.c);
        } else {
          CoroutineDecreases(ans, s, a);
        }
      case Answer(c) =>
        hide Rank, BodyOf, Frame, MatchPacket, Total, Queued, Exclusive, Output, Input, OwnPayload, Stream, Served,
             Kept, Weights, Answered;
        assert c < |s.m.calls|;
        OneChanges(ans, s, Next(ans, s, v), c);
    }
  }

  lemma CoroutineDecreases(ans: Server, s: Net, a: Act)
    requires CanMove(s, Client(a)) && !a.Issue? && !a.Dispatch? && Exclusive(s.m)
    requires forall n <- s.m.h.queue.chain :: n < |s.m.calls|
    ensures Measure(ans, Next(ans, s, Client(a))) < Measure(ans, s)
  {
    hide BodyOf, Frame, MatchPacket, Total, Weights, H.Step, IdIn;
    var s' := Next(ans, s, Client(a));
    OneChanges(ans, s, s', a.c);
  }

  lemma DispatchDecreases(ans: Server, s: Net, c: nat)
    requires NetInv(ans, s) && Sized(ans) && CanMove(s, Client(Dispatch(c)))
    requires forall n <- s.m.h.queue.chain :: n < |s.m.calls|
    ensures Measure(ans, Next(ans, s, Client(Dispatch(c)))) < Measure(ans, s)
  {
    hide NetInv, BodyOf, Frame, MatchPacket, Total, Weights, H.Step, IdIn, Matched, Deliver, Target, Short, FindId,
         Rank;
    DispatchServes(ans, s, c);
    var d := s.replies[Handled(s)];
    var moved := MoveTo(s.m, c, Recheck);
    DeliverChanges(moved, s.m.h.queue.chain, Matched(s.m));
    var s' := Next(ans, s, Client(Dispatch(c)));
    var mid := s.(m := s.m.(calls := moved));
    OneChanges(ans, s, mid, c);
    OneChanges(ans, mid, s', d);
    RankRecheck(s.m.calls[c], moved[c]);
    RankServed(moved[d], s'.m.calls[d]);
  }

  lemma RankRecheck(before: Call, after: Call)
    requires before.pc == Reading && after.pc == Recheck && before.outcome == None && after.outcome == None
    ensures Rank(before) == 0 && Rank(after) == 2
  {
  }

  lemma RankServed(before: Call, after: Call)
    requires before.frame == after.frame && before.pc == after.pc && after.outcome.Some?
    ensures Rank(after) <= Rank(before) + 2
  {
  }

  ghost predicate LegalNet(ans: Server, s: Net, vs: seq<Move>)
    requires NetInv(ans, s) && Sized(ans)
    decreases |vs|
  {
    vs == [] ||
    (CanMove(s, vs[0]) && (NetStep(ans, s, vs[0]); LegalNet(ans, Next(ans, s, vs[0]), vs[1..])))
  }

  ghost function AfterNet(ans: Server, s: Net, vs: seq<Move>): (r: Net)
    requires NetInv(ans, s) && Sized(ans) && LegalNet(ans, s, vs)
    ensures NetInv(ans, r)
    decreases |vs|
  {
    if vs == [] then s
    else
      NetStep(ans, s, vs[0]);
      AfterNet(ans, Next(ans, s, vs[0]), vs[1..])
  }

  lemma MeasureNat(ans: Server, s: Net)
    requires NetInv(ans, s)
    ensures Measure(ans, s) >= 0
  {
    hide Total, Weights, Inv, Answered, Served, Kept, Frames, Bodies;
  }

  /** Whatever the schedule, a run without new requests is no longer than the bound. */
  lemma {:induction false} RunBounded(ans: Server, s: Net, vs: seq<Move>)
    requires NetInv(ans, s) && Sized(ans) && LegalNet(ans, s, vs)
    requires forall v <- vs :: !Issues(v)
    ensures |vs| <= Measure(ans, s)
    decreases |vs|
  {
    MeasureNat(ans, s);
    if vs != [] {
      hide CanMove, Next, Measure, NetInv, Issues;
      NetStep(ans, s, vs[0]);
      StepDecreases(ans, s, vs[0]);
      RunBounded(ans, Next(ans, s, vs[0]), vs[1..]);
    }
  }

  /** A run that can only go on by issuing new requests has served everybody: every call has
      returned, with the server's answer to that very call. */
  lemma AllServed(ans: Server, s: Net, vs: seq<Move>, c: nat)
    requires NetInv(ans, s) && Sized(ans) && LegalNet(ans, s, vs)
    requires forall v :: CanMove(AfterNet(ans, s, vs), v) ==> Issues(v)
    requires c < |AfterNet(ans, s, vs).m.calls|
    ensures var call := AfterNet(ans, s, vs).m.calls[c];
      call.pc == Returned && call.outcome == Some(Completion(NoError, ans(c).tp, ans(c).payload))
  {
    var r := AfterNet(ans, s, vs);
    hide CanMove, AfterNet, LegalNet, Inv, Answered, Stream;
    if r.m.calls[c].pc != Returned {
      var v := Progress(ans, r, c);
    }
  }

  lemma StartNet(ans: Server)
    ensures NetInv(ans, Net(START, [], []))
  {
    hide BodyOf, Inv, H.Inv;
    StartInv();
    assert START.bodies == [] && START.calls == [];
    assert Bodies(ans, []) == [];
  }
}
