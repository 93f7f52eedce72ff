/** When every caller is told its result. Under three conditions the system of EndToEnd refines
    ClientLiveness, where a reply is put on the stream in one step by a server that answers each
    request once: no read of the client fails, nobody is cancelled, and requests are issued with
    the discipline that RequestHistory shows to be exact. Then somebody can go on as long as a
    call has not returned, and every run without new requests ends. */
module EndToEndLiveness {
  import opened Wire
  import opened Cursors
  import opened Framing
  import opened Packets
  import opened Requests
  import opened Dispatch
  import opened Replies
  import opened Attrs
  import opened ResponseQueues
  import opened EndToEnd
  import H = RequestHistory
  import M = ClientMux
  import N = ClientLiveness
  import P = ServerPool

  ghost predicate Disciplined(s: Sys, t: Act) {
    match t
    case Ask(_) => !H.Careless(s.m.h, H.Issue) && |s.m.h.queue.chain| < TWO_32
    case Client(a) => !a.Fail? && !a.Abort?
    case Worker(_) => true
  }

  ghost predicate CanAct(s: Sys, t: Act) {
    Enabled(s, t) && Readable(t) && Disciplined(s, t)
  }

  function Calls(m: M.Mux, ks: seq<nat>): (cs: seq<nat>)
    ensures |cs| == |ks| && forall i | 0 <= i < |ks| :: cs[i] == Who(m, ks[i])
  {
    seq(|ks|, i requires 0 <= i < |ks| => Who(m, ks[i]))
  }

  /** The system as ClientLiveness sees it. */
  function NetOf(s: Sys): (n: N.Net) {
    N.Net(s.m, Calls(s.m, Replied(s.p)),
          if |s.m.got| <= |Produced(s.p)| then Produced(s.p)[|s.m.got|..] else [])
  }

  function ReplyTo(r: Result): (x: N.Reply) {
    N.Reply(ReplyType(r), ReplyPayload(r))
  }

  ghost predicate Agreed(ans: N.Server, s: Sys) {
    forall k <- s.p.pending :: ans(Who(s.m, k)) == ReplyTo(s.p.pending[k])
  }

  ghost predicate Live(ans: N.Server, s: Sys) {
    Inv(s) && Agreed(ans, s) && N.Sized(ans) && N.NetInv(ans, NetOf(s))
  }

  // ----- every step refines

  lemma AgreedStays(ans: N.Server, s: Sys, s': Sys)
    requires Agreed(ans, s) && Decided(s.p) && s'.p == s.p && (forall k <- Replied(s.p) :: k in s.p.pending)
    requires forall k: nat | k < |s.p.bodies| :: Who(s'.m, k) == Who(s.m, k)
    ensures Agreed(ans, s') && Calls(s'.m, Replied(s.p)) == Calls(s.m, Replied(s.p))
  {
    hide Who, Usable, ReplyTo, Replied;
  }

  lemma NetFollows(ans: N.Server, s: Sys, a: M.Act, s': Sys)
    requires M.Enabled(s.m, a) && Listed(s.m)
    requires s'.p == s.p && s'.m == M.Apply(s.m, a) && N.CanMove(NetOf(s), N.Client(a))
    requires s.m.got <= Produced(s.p) && (a.Receive? ==> s.m.got + a.chunk <= Produced(s.p))
    requires Calls(s'.m, Replied(s.p)) == Calls(s.m, Replied(s.p))
    ensures NetOf(s') == N.Next(ans, NetOf(s), N.Client(a))
  {
    hide H.Step, M.Deliver, M.Short, MatchPacket, Produced, Replied, Calls, M.Matched;
  }

  lemma InPrefix(s: Sys)
    requires Inv(s)
    ensures s.m.got <= s.p.out <= Produced(s.p)
    ensures |s.p.bodies| <= |Order(s.m)| && forall k <- Replied(s.p) :: k in s.p.pending && k < |s.p.bodies|
  {
    ProducedCovers(s.p);
    RepliedPending(s.p);
    hide M.Inv, P.Inv, FramesAsked, Usable, Produced, Replied;
  }

  /** A step of a coroutine. */
  lemma ClientMoves(ans: N.Server, s: Sys, a: M.Act, s': Sys)
    requires Live(ans, s) && M.Enabled(s.m, a) && Listed(s.m) && !a.FailWrite?
    requires s'.p == s.p && s'.m == M.Apply(s.m, a) && Inv(s')
    requires N.CanMove(NetOf(s), N.Client(a)) && (a.Receive? ==> s.m.got + a.chunk <= s.p.out)
    ensures Live(ans, s')
    ensures a.Issue? || N.Measure(ans, NetOf(s')) < N.Measure(ans, NetOf(s))
  {
    assert NetOf(s).m == s.m;
    hide N.Measure, M.Inv, P.Inv, N.NetInv, N.Sized, M.Apply, M.Enabled, FramesAsked, Order, Produced, Replied,
         N.CanMove, N.Next, NetOf, Streams, Agreed;
    InPrefix(s);
    OrderGrows(s.m, a);
    WhoStays(s, s'.m);
    AgreedStays(ans, s, s');
    NetFollows(ans, s, a, s');
    N.NetStep(ans, NetOf(s), N.Client(a));
    if !a.Issue? {
      N.StepDecreases(ans, NetOf(s), N.Client(a));
    }
  }

  /** Different packets are different calls. */
  lemma WhoInjective(m: M.Mux, j: nat, k: nat)
    requires H.Once(Order(m)) && j < |Order(m)| && k < |Order(m)| && Who(m, j) == Who(m, k)
    ensures j == k
  {
    hide Order;
  }

  /** A packet held by a worker that does not write is not among those answered. */
  lemma NotReplied(s: Sys, w: nat)
    requires M.Inv(s.m) && P.Inv(s.p) && Claims(s) && (forall k <- Replied(s.p) :: k < |s.p.bodies|)
    requires w < |s.p.workers| && (s.p.workers[w].Serving? || s.p.workers[w].WantWrite?)
    ensures var k := s.p.workers[w].k;
      k < |s.p.bodies| && k !in Replied(s.p) && Who(s.m, k) !in Calls(s.m, Replied(s.p))
  {
    hide P.Input, P.Output, P.Faithful, P.Endings, M.Inv;
    var k := s.p.workers[w].k;
    var ks := Replied(s.p);
    HeldIsClaimed(s.p, w);
    if Current(s.p).Some? {
      var v := s.p.writer.value;
      assert P.Holds(s.p.workers[v], s.p.workers[v].k);
    }
    assert k !in ks;
    OrderOnce(s.m);
    hide Order, P.Inv, Replied;
    forall i | 0 <= i < |ks|
      ensures Who(s.m, ks[i]) != Who(s.m, k)
    {
      if Who(s.m, ks[i]) == Who(s.m, k) {
        assert ks[i] in ks;
        WhoInjective(s.m, ks[i], k);
      }
    }
  }

  lemma OrderWritten(m: M.Mux)
    requires M.Inv(m)
    ensures forall c: nat :: c in Order(m) <==> N.Written(m, c)
  {
    hide M.Queued, M.Output, M.Input, M.OwnPayload;
  }

  lemma ClaimedIsWritten(s: Sys, k: nat)
    requires M.Inv(s.m) && Claims(s) && k < |s.p.bodies|
    ensures Who(s.m, k) < |s.m.calls| && N.Written(s.m, Who(s.m, k))
  {
    OrderOnce(s.m);
    OrderWritten(s.m);
    assert Who(s.m, k) in Order(s.m);
    hide M.Queued, M.Output, M.Input, M.OwnPayload;
  }

  lemma LockWriteProduces(p: P.Pool, w: nat)
    requires P.Inv(p) && P.Enabled(p, P.LockWrite(w))
    ensures var x, p' := p.workers[w], P.Apply(p, P.LockWrite(w));
      Replied(p') == Replied(p) + [x.k] && Produced(p') == Produced(p) + x.response
  {
    hide P.Inv, Concat;
    assert Concat(p.responses) + [] == Concat(p.responses);
  }

  lemma NetGrows(s: Sys, p': P.Pool, k: nat, response: bytes)
    requires |s.m.got| <= |Produced(s.p)|
    requires Replied(p') == Replied(s.p) + [k] && Produced(p') == Produced(s.p) + response
    ensures NetOf(s.(p := p')) == N.Net(s.m, NetOf(s).replies + [Who(s.m, k)], NetOf(s).wire + response)
  {
    hide Produced, Replied, Who;
    assert Calls(s.m, Replied(s.p) + [k]) == Calls(s.m, Replied(s.p)) + [Who(s.m, k)];
    var done, n := Produced(s.p), |s.m.got|;
    assert (done + response)[n..] == done[n..] + response;
  }

  lemma LockedResponse(ans: N.Server, s: Sys, w: nat)
    requires Inv(s) && Agreed(ans, s) && w < |s.p.workers| && s.p.workers[w].WantWrite?
    ensures var x := s.p.workers[w]; x.k in s.p.pending && x.response == Frame(N.BodyOf(ans, Who(s.m, x.k)))
  {
    hide Frame, Body, ReplyType, ReplyPayload, P.Answers, M.Inv, P.Input, P.Output, P.Endings, P.Accounts,
         P.Exclusive, Who, H.IdOf, FramesAsked, Claims, Decided, Streams;
    var x := s.p.workers[w];
    assert P.Ready(s.p, x);
    ResponseIs(s, x.k, x.response);
  }

  /** The moment a worker takes the mutex to write is the answer of the abstract server. */
  lemma LockWriteAnswers(ans: N.Server, s: Sys, w: nat)
    requires Inv(s) && Agreed(ans, s) && w < |s.p.workers| && s.p.workers[w].WantWrite? && s.p.writer == None
    ensures var k, n := s.p.workers[w].k, NetOf(s);
      var c, p' := Who(s.m, k), P.Apply(s.p, P.LockWrite(w));
      && N.Written(s.m, c) && c !in n.replies
      && NetOf(s.(p := p')) == N.Net(n.m, n.replies + [c], n.wire + Frame(N.BodyOf(ans, c)))
  {
    InPrefix(s);
    hide Frame, N.BodyOf, Who, Produced, Replied, Order, N.Written, M.Inv, P.Inv, Claims, FramesAsked, Decided, Agreed;
    var x, p' := s.p.workers[w], P.Apply(s.p, P.LockWrite(w));
    NotReplied(s, w);
    ClaimedIsWritten(s, x.k);
    LockedResponse(ans, s, w);
    LockWriteProduces(s.p, w);
    hide P.Apply;
    NetGrows(s, p', x.k, x.response);
  }

  lemma WorkerLocks(ans: N.Server, s: Sys, w: nat)
    requires Live(ans, s) && CanAct(s, Worker(P.LockWrite(w))) && Listed(s.m)
    requires Inv(s.(p := P.Apply(s.p, P.LockWrite(w))))
    ensures var s' := s.(p := P.Apply(s.p, P.LockWrite(w)));
      Live(ans, s') && N.Measure(ans, NetOf(s')) < N.Measure(ans, NetOf(s))
  {
    hide N.Measure, Inv, N.NetInv, N.Sized, Order, N.Written, Who, Frame, N.BodyOf, ReplyTo;
    PendingStays(s.p, P.LockWrite(w));
    hide P.Apply;
    LockWriteAnswers(ans, s, w);
    assert NetOf(s).m == s.m;
    hide NetOf;
    var v := N.Answer(Who(s.m, s.p.workers[w].k));
    N.NetStep(ans, NetOf(s), v);
    N.StepDecreases(ans, NetOf(s), v);
  }

  /** Only the replies given so far matter. */
  lemma OnlyReplies(ans: N.Server, ans': N.Server, n: N.Net)
    requires N.NetInv(ans, n) && forall c <- n.replies :: ans'(c) == ans(c)
    ensures N.NetInv(ans', n)
  {
    hide MatchPacket, Body, Frame, Frames, M.Exclusive, M.Output, M.Roster, M.Input, M.OwnPayload, H.Inv, H.IdOf,
         N.Kept, N.Answered;
    var todo := n.replies[N.Handled(n)..];
    assert N.Bodies(ans, todo) == N.Bodies(ans', todo);
    forall c: nat | c < |n.m.calls| && n.m.calls[c].outcome.Some?
      ensures ans'(c) == ans(c)
    {
      assert n.m.h.Done(c);
      assert c in n.replies[..N.Handled(n)];
    }
  }

  lemma SizedUpdate(ans: N.Server, c: nat, r: Result) returns (ans': N.Server)
    requires N.Sized(ans) && Fits(r)
    ensures N.Sized(ans') && ans'(c) == ReplyTo(r) && forall n: nat | n != c :: ans'(n) == ans(n)
  {
    hide ReplyType, ReplyPayload, Body, H.IdOf;
    var x := ReplyTo(r);
    ans' := (n: nat) => if n == c then x else ans(n);
    forall n: nat
      ensures WellSized(N.BodyOf(ans', n))
    {
      assert n != c ==> N.BodyOf(ans', n) == N.BodyOf(ans, n);
    }
  }

  lemma SameNet(s: Sys, p': P.Pool)
    requires Replied(p') == Replied(s.p) && Produced(p') == Produced(s.p)
    ensures NetOf(s.(p := p')) == NetOf(s)
  {
    hide Replied, Produced, Calls;
  }

  /** Serving packet k decides what its call will be told, and nothing else. */
  lemma AgreedServe(ans: N.Server, ans': N.Server, s: Sys, k: nat, r: Result, p': P.Pool)
    requires Agreed(ans, s) && Decided(s.p) && Claims(s) && H.Once(Order(s.m)) && k < |s.p.bodies|
    requires p'.pending == s.p.pending[k := r]
    requires ans'(Who(s.m, k)) == ReplyTo(r) && forall n: nat | n != Who(s.m, k) :: ans'(n) == ans(n)
    ensures Agreed(ans', s.(p := p'))
  {
    hide Order, H.Once, Usable, ReplyTo;
    forall j <- p'.pending
      ensures ans'(Who(s.m, j)) == ReplyTo(p'.pending[j])
    {
      if j != k && Who(s.m, j) == Who(s.m, k) {
        WhoInjective(s.m, j, k);
      }
    }
  }

  /** The backend answers: from now on this is what the call will be told. */
  lemma WorkerServes(ans: N.Server, s: Sys, w: nat, r: Result) returns (ans': N.Server)
    requires Live(ans, s) && CanAct(s, Worker(P.Serve(w, r)))
    requires Inv(s.(p := P.Apply(s.p, P.Serve(w, r))))
    ensures Live(ans', s.(p := P.Apply(s.p, P.Serve(w, r))))
  {
    InPrefix(s);
    hide M.Inv, P.Inv, FramesAsked, Streams, Usable, Order, N.NetInv, N.Sized, Agreed, Replied, Produced, Claims, Fits,
         P.Apply, P.Enabled, Who, Calls, ReplyTo, Decided;
    var p' := P.Apply(s.p, P.Serve(w, r));
    ServeDecides(s.p, w, r);
    QuietReplies(s.p, P.Serve(w, r));
    NotReplied(s, w);
    OrderOnce(s.m);
    var k := s.p.workers[w].k;
    ans' := SizedUpdate(ans, Who(s.m, k), r);
    AgreedServe(ans, ans', s, k, r, p');
    OnlyReplies(ans, ans', NetOf(s));
    SameNet(s, p');
  }

  /** The other steps of a worker are invisible to the coroutines. */
  lemma WorkerIsQuiet(ans: N.Server, s: Sys, a: P.Act)
    requires Live(ans, s) && CanAct(s, Worker(a)) && !a.LockWrite? && !a.Serve?
    requires Inv(s.(p := P.Apply(s.p, a)))
    ensures var s' := s.(p := P.Apply(s.p, a)); Live(ans, s') && NetOf(s') == NetOf(s)
  {
    hide M.Inv, FramesAsked, Streams, Usable, Claims, Replied, Produced, N.NetInv, N.Sized, Who, HandleFrame, Decided,
         P.Possible, P.Encodable, P.Inv;
    PendingStays(s.p, a);
    QuietReplies(s.p, a);
    hide P.Apply, P.Enabled;
    SameNet(s, P.Apply(s.p, a));
    hide NetOf;
  }

  lemma QuietReplies(p: P.Pool, a: P.Act)
    requires P.Inv(p) && P.Enabled(p, a) && !a.LockWrite? && !a.FailWrite?
    ensures Replied(P.Apply(p, a)) == Replied(p) && Produced(P.Apply(p, a)) == Produced(p)
  {
    hide MatchPacket, HandleFrame, P.Possible, P.Encodable, Sent, RequestId, Concat, P.Input, P.Output, P.Accounts,
         P.Faithful, P.Endings;
    if a.Finish? {
      var r := p.workers[a.w].response;
      ConcatSnoc(p.responses, r);
      assert (Concat(p.responses) + r) + [] == Concat(p.responses) + r;
    }
  }

  /** Every step of a coroutine, and the start of a reply, uses up some of ClientLiveness' bound; the
      backend's answer may extend it, and the other steps of a worker leave it as it is. */
  ghost predicate Lighter(ans': N.Server, s': Sys, ans: N.Server, s: Sys, t: Act) {
    (t.Worker? && t.work.Serve?) ||
    (ans' == ans &&
     var x', x := N.Measure(ans, NetOf(s')), N.Measure(ans, NetOf(s));
     if t.Worker? && !t.work.LockWrite? then x' == x else x' < x)
  }

  /** Every step of a coroutine or a worker is a step of the abstract network, or leaves it as
      it is. */
  lemma StepRefines(ans: N.Server, s: Sys, t: Act) returns (ans': N.Server)
    requires Live(ans, s) && CanAct(s, t)
    ensures Listed(s.m) && Live(ans', Do(s, t))
    ensures !t.Ask? ==> Lighter(ans', Do(s, t), ans, s, t)
  {
    ans' := ans;
    StepKeeps(s, t);
    hide Inv, Live, NetOf, N.Measure, M.Apply, P.Apply, Agreed;
    match t {
      case Ask(r) => AskMoves(ans, s, r);
      case Client(a) => CoroutineMoves(ans, s, a);
      case Worker(a) =>
        if a.LockWrite? {
          WorkerLocks(ans, s, a.w);
        } else if a.Serve? {
          ans' := WorkerServes(ans, s, a.w, a.result);
        } else {
          WorkerIsQuiet(ans, s, a);
        }
    }
  }

  lemma AskMoves(ans: N.Server, s: Sys, r: Request)
    requires Live(ans, s) && CanAct(s, Ask(r)) && Listed(s.m) && Inv(Do(s, Ask(r)))
    ensures Live(ans, Do(s, Ask(r)))
  {
    hide Inv, N.NetInv, N.Sized, Agreed, Issued, H.Careless, NetOf, Live, N.Measure, M.Apply;
    SameMux(s);
    ClientMoves(ans, s, M.Issue(Issued(s, r)), Do(s, Ask(r)));
  }

  lemma SameMux(s: Sys)
    ensures NetOf(s).m == s.m
  {
  }

  lemma CoroutineMoves(ans: N.Server, s: Sys, a: M.Act)
    requires Live(ans, s) && CanAct(s, Client(a)) && Listed(s.m) && Inv(Do(s, Client(a)))
    ensures Live(ans, Do(s, Client(a)))
    ensures N.Measure(ans, NetOf(Do(s, Client(a)))) < N.Measure(ans, NetOf(s))
  {
    hide M.Apply, M.Enabled, Inv, N.NetInv, N.Sized, Agreed, Produced, Replied, N.Measure;
    InPrefix(s);
    if a.Receive? {
      assert s.m.got + a.chunk <= Produced(s.p);
      assert Produced(s.p)[|s.m.got|..][..|a.chunk|] == Produced(s.p)[|s.m.got|..|s.m.got| + |a.chunk|];
      assert a.chunk <= NetOf(s).wire;
    }
    hide Live;
    ClientMoves(ans, s, a, Do(s, Client(a)));
  }

  // ----- whole runs

  ghost predicate Sound(s: Sys) {
    exists ans: N.Server :: Live(ans, s)
  }

  lemma SoundStep(s: Sys, t: Act)
    requires Sound(s) && CanAct(s, t)
    ensures Sound(Do(s, t))
  {
    var ans: N.Server :| Live(ans, s);
    hide Live, CanAct, Do;
    var ans' := StepRefines(ans, s, t);
  }

  lemma StartNet(workers: nat)
    ensures var s := Start(workers);
      NetOf(s) == N.Net(M.START, [], []) && s.p.pending == map[]
  {
    var no: seq<bytes>, none: seq<nat> := [], [];
    assert Concat(no) == [];
    hide Concat;
    var s := Start(workers);
    assert Replied(s.p) == none && Produced(s.p) == [];
    assert Calls(s.m, none) == none;
  }

  lemma StartSound(workers: nat)
    ensures Sound(Start(workers))
  {
    hide Inv, N.NetInv, N.Sized, NetOf, Start;
    StartNet(workers);
    StartKeeps(workers);
    var none := N.Reply(0, []);
    var ans: N.Server := (c: nat) => none;
    N.StartNet(ans);
    SizedNone(ans, none);
    assert Live(ans, Start(workers));
  }

  lemma SizedNone(ans: N.Server, none: N.Reply)
    requires none.payload == [] && forall c: nat :: ans(c) == none
    ensures N.Sized(ans)
  {
    hide Body;
  }

  /** A run that keeps the conditions. */
  ghost predicate Keeps(s: Sys, acts: seq<Act>)
    requires Legal(s, acts)
    decreases |acts|
  {
    acts == [] || (Readable(acts[0]) && Disciplined(s, acts[0]) && Keeps(Do(s, acts[0]), acts[1..]))
  }

  lemma {:induction false} RunSound(s: Sys, acts: seq<Act>)
    requires Sound(s) && Legal(s, acts) && Keeps(s, acts)
    ensures Sound(After(s, acts))
    decreases |acts|
  {
    if acts != [] {
      hide Sound, Disciplined, Enabled, Readable;
      SoundStep(s, acts[0]);
      hide Do;
      RunSound(Do(s, acts[0]), acts[1..]);
    }
  }

  predicate Finished(m: M.Mux, c: nat) {
    c < |m.calls| && (m.calls[c].pc.Returned? || m.calls[c].outcome.Some?)
  }

  lemma FinishedReplied(ans: N.Server, n: N.Net, c: nat) returns (i: nat)
    requires N.NetInv(ans, n) && Finished(n.m, c)
    ensures i < |n.replies| && n.replies[i] == c
    ensures n.m.calls[c].outcome == Some(Completion(NoError, ans(c).tp, ans(c).payload))
  {
    hide M.Exclusive, M.Output, M.Roster, M.Input, M.OwnPayload, H.Inv, N.Stream, N.Answered;
    assert n.m.calls[c].outcome.Some?;
    assert n.m.h.Done(c);
    assert c in n.replies[..N.Handled(n)];
    i :| 0 <= i < |n.replies| && n.replies[i] == c;
  }

  /** Here the call's own packet is found however many calls there are. */
  lemma ToldOnce(ans: N.Server, s: Sys, c: nat) returns (k: nat)
    requires Live(ans, s) && Finished(s.m, c)
    ensures Told(s, c, k)
  {
    InPrefix(s);
    var i := FinishedReplied(ans, NetOf(s), c);
    k := Replied(s.p)[i];
    assert k in Replied(s.p);
    hide Inv, ReplyType, ReplyPayload, P.Possible, HandleFrame, Order, Who, N.NetInv, N.Sized, Asked, Understood,
         Replied, H.IdOf, Sees, Told;
    CarriesHere(s, c, k);
    ToldNow(s, c, k);
  }

  lemma CarriesHere(s: Sys, c: nat, k: nat)
    requires Inv(s) && k in Replied(s.p) && k in s.p.pending && Who(s.m, k) == c && c < |s.m.calls|
    requires var r := s.p.pending[k]; s.m.calls[c].outcome == Some(Completion(NoError, ReplyType(r), ReplyPayload(r)))
    ensures Carries(s, c, k)
  {
    hide M.Inv, P.Inv, Streams, ReplyType, ReplyPayload, P.Possible, HandleFrame, Order, Who, Asked, Replied,
         H.IdOf, Fits;
  }

  /** Every call that has returned was told the result that the backend produced for it, however
      many calls there are. */
  lemma OwnAnswerAlways(workers: nat, acts: seq<Act>, c: nat)
    requires Legal(Start(workers), acts) && Keeps(Start(workers), acts)
    requires Finished(After(Start(workers), acts).m, c)
    ensures exists k: nat :: Told(After(Start(workers), acts), c, k)
  {
    StartSound(workers);
    RunSound(Start(workers), acts);
    var s := After(Start(workers), acts);
    hide After, Legal, Keeps, Start, Told, Live, Finished;
    var ans: N.Server :| Live(ans, s);
    var k := ToldOnce(ans, s, c);
  }

  // ----- nobody waits for ever

  /** Steps by which the system loses nothing and takes nothing new on. */
  predicate Serves(t: Act) {
    match t
    case Ask(_) => false
    case Client(_) => true
    case Worker(a) => !a.Stop? && !a.Abandon? && !a.CancelWrite?
  }

  /** The server knows every operation of the client. */
  lemma KnownOperation(r: Request, id: u32)
    ensures !HandleFrame(Body(OpCode(r), id, Payload(r))).Quit?
  {
    var c := Cursor(Payload(r), NoError);
    ParseBody(OpCode(r), id, Payload(r));
    KnownOpcode(OpCode(r), c.TakeStr().0);
    hide Cursor.TakeStr, Cursor.TakeU32, Cursor.TakeU64, TakeAttrs, Payload, Body;
  }

  /** The backend may always report an error. */
  function Failure(d: Decision): (r: Result)
    requires !d.Quit?
    ensures P.Possible(d, r) && Fits(r) && !r.RData?
  {
    RStatus(if d.Reject? then d.ec else Eof, [])
  }

  lemma WriterMoves(s: Sys, w: nat) returns (t: Act)
    requires P.Inv(s.p) && w < |s.p.workers| && s.p.workers[w].Writing?
    ensures CanAct(s, t) && Serves(t)
  {
    hide P.Input, P.Output, P.Accounts, P.Endings, HandleFrame, P.Possible, P.Encodable, Sent, RequestId, MatchPacket;
    var x := s.p.workers[w];
    assert P.Ready(s.p, x);
    t := Worker(if x.put < |x.response| then P.Put(w, 1) else P.Finish(w));
  }

  lemma ClaimedIsKnown(s: Sys, k: nat)
    requires M.Inv(s.m) && FramesAsked(s.m, s.reqs) && Claims(s) && k < |s.p.bodies|
    ensures !HandleFrame(s.p.bodies[k]).Quit?
  {
    hide HandleFrame, OpCode, Payload, Body, M.Inv, H.IdOf, Order, N.Written, Frame, WellSized;
    ClaimedIsWritten(s, k);
    var c := Who(s.m, k);
    hide Who;
    KnownOperation(s.reqs[c], H.IdOf(c));
  }

  lemma ServingMoves(s: Sys, w: nat) returns (t: Act)
    requires w < |s.p.workers| && s.p.workers[w].Serving? && s.p.workers[w].k < |s.p.bodies|
    requires !HandleFrame(s.p.bodies[s.p.workers[w].k]).Quit?
    ensures CanAct(s, t) && Serves(t)
  {
    hide HandleFrame, P.Possible, Fits, Failure, MatchPacket;
    t := Worker(P.Serve(w, Failure(HandleFrame(s.p.bodies[s.p.workers[w].k]))));
  }

  /** A worker that holds a packet, or the one that keeps it from writing, can go on. */
  lemma HolderMoves(s: Sys, w: nat) returns (t: Act)
    requires P.Inv(s.p) && Claims(s) && M.Inv(s.m) && FramesAsked(s.m, s.reqs)
    requires w < |s.p.workers| && !s.p.workers[w].Idle? && !s.p.workers[w].Exited? && !s.p.workers[w].Locked?
    ensures CanAct(s, t) && Serves(t)
  {
    hide M.Inv, Claims, FramesAsked, HandleFrame, P.Possible, P.Input, P.Output, P.Faithful, P.Endings;
    if s.p.workers[w].Serving? {
      HeldIsClaimed(s.p, w);
      ClaimedIsKnown(s, s.p.workers[w].k);
      t := ServingMoves(s, w);
    } else if s.p.workers[w].WantWrite? && s.p.writer == None {
      t := Worker(P.LockWrite(w));
    } else {
      t := WriterMoves(s, if s.p.workers[w].Writing? then w else s.p.writer.value);
    }
  }

  lemma CutPrefix(a: bytes, x: bytes, y: bytes)
    requires a + x <= a + y
    ensures x <= y && (a + x == a + y ==> x == y)
  {
    assert (a + x)[|a|..] == x && (a + y)[|a|..] == y;
    assert (a + y)[..|a + x|] == a + x;
    assert y[..|x|] == (a + y)[|a|..|a + x|];
  }

  /** What was read of a stream of packets starts with a packet, if anything can be matched. */
  lemma NextPacket(todo: seq<bytes>, partial: bytes, local: bytes)
    requires MatchPacket(partial) == None && forall b <- todo :: WellSized(b)
    requires local <= Frames(todo) + partial
    ensures MatchPacket(local).Some? ==> MatchPacket(local).value >= 4
    ensures todo != [] && local == Frames(todo) + partial ==> MatchPacket(local).Some?
  {
    var none: seq<bytes> := [];
    assert Frames(none) == [];
    hide MatchPacket, Frames, Frame, WellSized;
    var rest := Frames(todo) + partial;
    if MatchPacket(local).Some? {
      MatchStable(local, rest[|local|..]);
      assert local + rest[|local|..] == rest;
    }
    if todo != [] {
      var b, more := todo[0], Frames(todo[1..]);
      FramesCons(b, todo[1..]);
      assert [b] + todo[1..] == todo;
      Regroup(Frame(b), more, partial);
      MatchFrame(b, more + partial);
    } else {
      assert rest == partial;
    }
  }

  lemma FramesFrom(bodies: seq<bytes>, k: nat, partial: bytes)
    requires k <= |bodies|
    ensures Frames(bodies) + partial == Frames(bodies[..k]) + (Frames(bodies[k..]) + partial)
  {
    hide Frames;
    FramesAppend(bodies[..k], bodies[k..]);
    assert bodies[..k] + bodies[k..] == bodies;
    Regroup(Frames(bodies[..k]), Frames(bodies[k..]), partial);
  }

  /** While a packet is written and not claimed, a worker that is left can go and get it. */
  lemma ReaderMoves(s: Sys, w: nat) returns (t: Act)
    requires M.Inv(s.m) && P.Inv(s.p) && Streams(s) && FramesAsked(s.m, s.reqs) && Claims(s)
    requires |s.p.bodies| < |Order(s.m)| && w < |s.p.workers| && !s.p.workers[w].Exited?
    ensures CanAct(s, t) && Serves(t)
  {
    hide M.Inv, FramesAsked, Claims, Streams, HandleFrame, P.Possible, P.Input, P.Output, P.Accounts, P.Faithful,
         P.Endings, Order, MatchPacket;
    if s.p.reader.Some? {
      t := LockedMoves(s, s.p.reader.value);
    } else if s.p.workers[w].Idle? {
      t := Worker(P.Lock(w));
    } else {
      t := HolderMoves(s, w);
    }
  }

  lemma LockedLocal(p: P.Pool, w: nat)
    requires P.Inv(p) && !p.torn && p.reader == Some(w)
    ensures w < |p.workers| && p.workers[w].Locked? && p.taken == Frames(p.bodies) + p.workers[w].local
  {
    hide P.Output, P.Accounts, P.Faithful, P.Endings;
  }

  lemma ClaimedAre(s: Sys)
    requires Claims(s)
    ensures |s.p.bodies| <= |Order(s.m)| && s.p.bodies == AskedAll(s.reqs, Order(s.m))[..|s.p.bodies|]
  {
    hide Order, Asked;
  }

  lemma LockedMoves(s: Sys, w: nat) returns (t: Act)
    requires M.Inv(s.m) && P.Inv(s.p) && Streams(s) && FramesAsked(s.m, s.reqs) && Claims(s)
    requires |s.p.bodies| < |Order(s.m)| && s.p.reader == Some(w)
    ensures CanAct(s, t) && Serves(t)
  {
    hide M.Inv, P.Inv, FramesAsked, Order, Asked, Frames, MatchPacket, WellSized, HandleFrame, P.Possible, Claims;
    LockedLocal(s.p, w);
    var local := s.p.workers[w].local;
    var partial := WrittenIs(s);
    var bodies := AskedAll(s.reqs, Order(s.m));
    ClaimedAre(s);
    var k := |s.p.bodies|;
    FramesFrom(bodies, k, partial);
    CutPrefix(Frames(bodies[..k]), local, Frames(bodies[k..]) + partial);
    NextPacket(bodies[k..], partial, local);
    if MatchPacket(local).Some? {
      t := Worker(P.Claim(w));
    } else {
      var n := |s.p.taken|;
      assert n < |s.m.out|;
      assert s.p.taken + s.m.out[n..n + 1] == s.m.out[..n + 1];
      t := Worker(P.Receive(w, s.m.out[n..n + 1]));
    }
  }

  /** Whoever waits to read gets a byte that was written, or the worker that writes goes on. */
  lemma DeliveryMoves(s: Sys, a: M.Act) returns (t: Act)
    requires P.Inv(s.p) && Streams(s) && M.Enabled(s.m, a) && a.Receive? && NetOf(s).wire != []
    ensures CanAct(s, t) && Serves(t)
  {
    var n := |s.m.got|;
    hide P.Inv, MatchPacket;
    if n < |s.p.out| {
      var chunk := s.p.out[n..n + 1];
      assert s.m.got + chunk == s.p.out[..n + 1];
      t := Client(M.Receive(a.c, chunk));
    } else {
      t := CurrentMoves(s);
    }
  }

  lemma CurrentMoves(s: Sys) returns (t: Act)
    requires P.Inv(s.p) && !s.p.broken && |s.p.out| < |Produced(s.p)|
    ensures CanAct(s, t) && Serves(t)
  {
    hide P.Input, P.Accounts, P.Faithful, P.Endings, Concat;
    assert Current(s.p).Some?;
    t := WriterMoves(s, s.p.writer.value);
  }

  /** A call that is written and not answered: its packet is held by a worker, or still to be
      claimed. */
  lemma AnswerMoves(s: Sys, w: nat, d: nat) returns (t: Act)
    requires M.Inv(s.m) && P.Inv(s.p) && Streams(s) && FramesAsked(s.m, s.reqs) && Claims(s)
    requires w < |s.p.workers| && !s.p.workers[w].Exited? && s.p.dropped == []
    requires N.Written(s.m, d) && d !in Calls(s.m, Replied(s.p))
    ensures CanAct(s, t) && Serves(t)
  {
    hide M.Inv, FramesAsked, Streams, N.Written, Claims, P.Exclusive, P.Input, P.Output, P.Faithful, P.Endings;
    OrderWritten(s.m);
    var k :| 0 <= k < |Order(s.m)| && Order(s.m)[k] == d;
    assert Who(s.m, k) == d;
    hide Order, Who;
    ClaimedAre(s);
    if k < |s.p.bodies| {
      if k in s.p.answered {
        AnsweredIsReplied(s, k);
      }
      assert k !in s.p.answered + s.p.dropped;
      var v :| 0 <= v < |s.p.workers| && P.Holds(s.p.workers[v], k);
      t := HolderMoves(s, v);
    } else {
      t := ReaderMoves(s, w);
    }
  }

  lemma AnsweredIsReplied(s: Sys, k: nat)
    requires k in s.p.answered
    ensures Who(s.m, k) in Calls(s.m, Replied(s.p))
  {
    hide Who;
    var i :| 0 <= i < |s.p.answered| && s.p.answered[i] == k;
    assert Replied(s.p)[i] == k;
    assert Calls(s.m, Replied(s.p))[i] == Who(s.m, k);
  }

  /** Whoever has not returned: as long as no packet is dropped and one worker is left, a coroutine
      or a worker can take a step. */
  lemma Progress(s: Sys, w: nat, c: nat) returns (t: Act)
    requires Sound(s) && c < |s.m.calls| && s.m.calls[c].pc != M.Returned
    requires w < |s.p.workers| && !s.p.workers[w].Exited? && s.p.dropped == []
    ensures CanAct(s, t) && Serves(t)
  {
    hide P.Inv, M.Inv, N.NetInv, N.Sized, FramesAsked, Claims, Decided, Agreed, Produced, Replied, Order, MatchPacket;
    var ans: N.Server :| Live(ans, s);
    var v := N.Progress(ans, NetOf(s), c);
    match v {
      case Client(a) =>
        if a.Receive? {
          t := DeliveryMoves(s, a);
        } else {
          t := Client(a);
        }
      case Answer(d) => t := AnswerMoves(s, w, d);
    }
  }

  /** A run in which nothing is dropped and a worker is left can stop only when every call has
      returned, told the result produced for it. */
  lemma AllServed(workers: nat, acts: seq<Act>, w: nat, c: nat)
    requires Legal(Start(workers), acts) && Keeps(Start(workers), acts)
    requires forall t :: CanAct(After(Start(workers), acts), t) ==> !Serves(t)
    requires After(Start(workers), acts).p.dropped == []
    requires var p := After(Start(workers), acts).p; w < |p.workers| && !p.workers[w].Exited?
    requires c < |After(Start(workers), acts).m.calls|
    ensures After(Start(workers), acts).m.calls[c].pc == M.Returned
    ensures exists k: nat :: Told(After(Start(workers), acts), c, k)
  {
    StartSound(workers);
    RunSound(Start(workers), acts);
    var s := After(Start(workers), acts);
    hide After, Legal, Keeps, Start, Told, Live, CanAct, Sound;
    if s.m.calls[c].pc != M.Returned {
      var t := Progress(s, w, c);
    }
    OwnAnswerAlways(workers, acts, c);
  }

  // ----- every run ends

  /** What a worker has to do before it is idle again, or gone. */
  function Rank(x: P.Worker): (n: nat) {
    match x
    case Idle => 1
    case Locked(_) => 0
    case Serving(_) => 1
    case WantWrite(_, response) => 3 + |response|
    case Writing(_, response, put) => if put <= |response| then 2 + |response| - put else 0
    case Exited => 0
  }

  function Ranks(p: P.Pool): (w: seq<nat>)
    ensures |w| == |p.workers| && forall i | 0 <= i < |w| :: w[i] == Rank(p.workers[i])
  {
    seq(|p.workers|, i requires 0 <= i < |p.workers| => Rank(p.workers[i]))
  }

  function Undecided(p: P.Pool): (w: seq<nat>)
    ensures |w| == |p.workers| && forall i | 0 <= i < |w| :: w[i] == if p.workers[i].Serving? then 1 else 0
  {
    seq(|p.workers|, i requires 0 <= i < |p.workers| => if p.workers[i].Serving? then 1 else 0)
  }

  /** The results the backend has still to produce. */
  function Results(s: Sys): (n: int) {
    |s.m.calls| - |s.p.bodies| + N.Total(Undecided(s.p))
  }

  /** The workers' own steps up to the next result or reply. */
  function Load(s: Sys): (n: int) {
    N.Total(Ranks(s.p)) + 2 * (|Order(s.m)| - |s.p.bodies|) + (|s.m.out| - |s.p.taken|)
  }

  lemma OneWorker(p: P.Pool, a: P.Act)
    requires P.Enabled(p, a)
    ensures var p', w := P.Apply(p, a), a.w;
      && |p'.workers| == |p.workers|
      && N.Total(Ranks(p')) == N.Total(Ranks(p)) - Rank(p.workers[w]) + Rank(p'.workers[w])
      && N.Total(Undecided(p')) == N.Total(Undecided(p)) - Undecided(p)[w] + Undecided(p')[w]
  {
    hide HandleFrame, P.Possible, P.Encodable, Sent, RequestId, MatchPacket, N.Total, Rank;
    var p', w := P.Apply(p, a), a.w;
    assert p'.workers == p.workers[w := p'.workers[w]];
    N.TotalUpdate(Ranks(p), w, Rank(p'.workers[w]));
    N.TotalUpdate(Undecided(p), w, Undecided(p')[w]);
    assert Ranks(p') == Ranks(p)[w := Rank(p'.workers[w])];
    assert Undecided(p') == Undecided(p)[w := Undecided(p')[w]];
  }

  lemma ResultsStep(s: Sys, t: Act)
    requires M.Inv(s.m) && FramesAsked(s.m, s.reqs) && CanAct(s, t) && !t.Ask? && Listed(s.m)
    ensures Results(Do(s, t)) <= Results(s)
    ensures t.Worker? && t.work.Serve? ==> Results(Do(s, t)) < Results(s)
  {
    hide HandleFrame, P.Possible, P.Encodable, Sent, RequestId, MatchPacket, N.Total, M.Inv, FramesAsked;
    match t {
      case Client(a) =>
        AskedStays(s, a);
        hide M.Apply, M.Enabled;
      case Worker(a) => OneWorker(s.p, a);
    }
  }

  lemma LoadStep(s: Sys, a: P.Act)
    requires CanAct(s, Worker(a)) && !a.LockWrite? && !a.Serve?
    ensures Load(s.(p := P.Apply(s.p, a))) < Load(s)
  {
    hide HandleFrame, P.Possible, P.Encodable, Sent, RequestId, MatchPacket, N.Total, Order;
    OneWorker(s.p, a);
  }

  lemma {:induction false} Pigeons(s: seq<nat>, n: nat)
    requires H.Once(s) && forall x <- s :: x < n
    ensures |s| <= n
    decreases n
  {
    assert s == [] || s[0] in s;
    if n > 0 {
      if n - 1 in s {
        var i :| 0 <= i < |s| && s[i] == n - 1;
        var rest := s[..i] + s[i + 1..];
        forall j | 0 <= j < |rest|
          ensures rest[j] < n - 1 && rest[j] == s[if j < i then j else j + 1]
        {
          assert rest[j] in s && rest[j] != s[i];
        }
        Pigeons(rest, n - 1);
      } else {
        Pigeons(s, n - 1);
      }
    }
  }

  lemma BoundsHold(ans: N.Server, s: Sys)
    requires Live(ans, s)
    ensures Results(s) >= 0 && N.Measure(ans, NetOf(s)) >= 0 && Load(s) >= 0
  {
    hide P.Inv, N.NetInv, N.Sized, FramesAsked, Decided, Agreed, N.Total, N.Weights, NetOf, Frames;
    OrderOnce(s.m);
    hide M.Inv, Order, H.Once;
    Pigeons(Order(s.m), |s.m.calls|);
    N.MeasureNat(ans, NetOf(s));
  }

  ghost predicate Follows(run: nat -> Sys, acts: nat -> Act) {
    forall i: nat :: CanAct(run(i), acts(i)) && run(i + 1) == Do(run(i), acts(i))
  }

  /** The bound, most significant first: results to come, ClientLiveness' measure, the workers' own
      steps. Every step but a new request lowers it. */
  lemma {:induction false} NextAsk(ans: N.Server, run: nat -> Sys, acts: nat -> Act, i: nat) returns (j: nat)
    requires Live(ans, run(i)) && Follows(run, acts)
    ensures j >= i && acts(j).Ask?
    decreases Results(run(i)), N.Measure(ans, NetOf(run(i))), Load(run(i))
  {
    j := i;
    if !acts(i).Ask? {
      var s, t := run(i), acts(i);
      assert CanAct(s, t) && run(i + 1) == Do(s, t);
      var ans' := StepRefines(ans, s, t);
      BoundsHold(ans, s);
      StepSpends(ans, s, t);
      hide Live, CanAct, Do, N.Measure, NetOf, Results, Load, Follows;
      j := NextAsk(ans', run, acts, i + 1);
    }
  }

  lemma StepSpends(ans: N.Server, s: Sys, t: Act)
    requires Live(ans, s) && CanAct(s, t) && !t.Ask?
    ensures Results(Do(s, t)) <= Results(s)
    ensures t.Worker? && t.work.Serve? ==> Results(Do(s, t)) < Results(s)
    ensures t.Worker? && !t.work.Serve? && !t.work.LockWrite? ==> Load(Do(s, t)) < Load(s)
  {
    hide M.Inv, P.Inv, N.NetInv, N.Sized, FramesAsked, Decided, Agreed, Claims, Streams, Results, Load;
    QueuedOf(s.m);
    M.ChainInRange(s.m);
    ResultsStep(s, t);
    if t.Worker? && !t.work.Serve? && !t.work.LockWrite? {
      LoadStep(s, t.work);
    }
  }

  lemma QueuedOf(m: M.Mux)
    requires M.Inv(m)
    ensures M.Queued(m)
  {
  }

  lemma {:induction false} Reached(workers: nat, run: nat -> Sys, acts: nat -> Act, i: nat)
    requires run(0) == Start(workers) && Follows(run, acts)
    ensures Sound(run(i))
  {
    if i == 0 {
      StartSound(workers);
    } else {
      var s, t := run(i - 1), acts(i - 1);
      assert CanAct(s, t) && run(i - 1 + 1) == Do(s, t);
      hide Live, CanAct, Do, Start, Follows;
      Reached(workers, run, acts, i - 1);
      SoundStep(s, t);
    }
  }

  /** However coroutines and workers are scheduled, and however long the results: a run that never
      ends issues new requests for ever. So every run without new requests ends. */
  lemma EndlessRunsAsk(workers: nat, run: nat -> Sys, acts: nat -> Act, i: nat)
    requires run(0) == Start(workers) && Follows(run, acts)
    ensures exists j: nat :: j >= i && acts(j).Ask?
  {
    Reached(workers, run, acts, i);
    hide Live, Follows, Start;
    var ans: N.Server :| Live(ans, run(i));
    var j := NextAsk(ans, run, acts, i);
  }
}
