/** serve and serve_worker: any number of workers on one stream. A worker reads one packet under
    the read mutex, starting from the bytes the previous reader left over, calls the backend
    without a lock, and writes the reply under the write mutex. */
module ServerPool {
  import opened Wire
  import opened Cursors
  import opened Framing
  import opened Packets
  import opened Dispatch
  import opened Replies
  import H = RequestHistory
  import ClientMux

  /** `k` numbers the packets in the order in which they were claimed. */
  datatype Worker =
    | Idle
    | Locked(local: bytes)                          // holding the read mutex, my_buffer
    | Serving(k: nat)
    | WantWrite(k: nat, response: bytes)
    | Writing(k: nat, response: bytes, put: nat)    // holding the write mutex
    | Exited

  /** `taken` is everything read off the stream, `bodies` the packets claimed; `answered`,
      `results` and `responses` describe the replies written, `dropped` the packets whose worker
      ended instead. `torn` says that a read has failed, `broken` that a write has. */
  datatype Pool = Pool(workers: seq<Worker>, shared: bytes, reader: Option<nat>, writer: Option<nat>,
                       taken: bytes, bodies: seq<bytes>, torn: bool,
                       out: bytes, broken: bool, answered: seq<nat>, dropped: seq<nat>,
                       pending: map<nat, Result>, results: seq<Result>, responses: seq<bytes>)

  datatype Act =
    | Lock(w: nat) | Receive(w: nat, chunk: bytes) | FailRead(w: nat) | Claim(w: nat)
    | Serve(w: nat, result: Result) | Abandon(w: nat)
    | LockWrite(w: nat) | Put(w: nat, n: nat) | Finish(w: nat)
    | CancelWrite(w: nat) | FailWrite(w: nat)
    | Stop(w: nat)

  /** The results a backend can produce for a call, and the status an error leads to. */
  predicate Possible(d: Decision, r: Result) {
    match d
    case Quit => false
    case Reject(ec) => r.RStatus? && r.ec == ec
    case Invoke(call) =>
      (match call
       case SOpen(_, _, _) => r.RHandle? || (r.RStatus? && r.ec.Failed())
       case SOpendir(_) => r.RHandle? || (r.RStatus? && r.ec.Failed())
       case SReadAt(_, _, len) => (r.RData? && |r.data| <= len) || (r.RStatus? && r.ec.Failed())
       case SLstat(_) => r.RAttrs? || (r.RStatus? && r.ec.Failed())
       case SFstat(_) => r.RAttrs? || (r.RStatus? && r.ec.Failed())
       case SStat(_) => r.RAttrs? || (r.RStatus? && r.ec.Failed())
       case SReaddir(_) => r.RNames? || (r.RStatus? && r.ec.Failed())
       case SCanonicalizePath(_) => r.RName? || (r.RStatus? && r.ec.Failed())
       case SReadlink(_) => r.RName? || (r.RStatus? && r.ec.Failed())
       case SExpandPath(_) => r.RName? || (r.RStatus? && r.ec.Failed())
       case _ => r.RStatus?)
  }

  /** A reply that does not fit makes the encoder fail, which ends the worker; HANDLE alone is
      sent with a narrowed size. */
  predicate Encodable(r: Result) {
    Fits(r) || r.RHandle?
  }

  ghost predicate Enabled(p: Pool, a: Act) {
    && a.w < |p.workers|
    && var me := p.workers[a.w];
       match a
       case Lock(_) => me.Idle? && p.reader == None
       case Receive(_, chunk) => me.Locked? && MatchPacket(me.local) == None && chunk != []
       case FailRead(_) => me.Locked? && MatchPacket(me.local) == None
       case Claim(_) => me.Locked? && MatchPacket(me.local).Some? && MatchPacket(me.local).value >= 4
       case Serve(_, r) =>
         me.Serving? && me.k < |p.bodies| && Possible(HandleFrame(p.bodies[me.k]), r) && Encodable(r)
       case Abandon(_) =>
         me.Serving? && me.k < |p.bodies| &&
         (HandleFrame(p.bodies[me.k]).Quit? || exists r :: Possible(HandleFrame(p.bodies[me.k]), r) && !Encodable(r))
       case LockWrite(_) => me.WantWrite? && p.writer == None
       case Put(_, n) => me.Writing? && 0 < n && me.put + n <= |me.response|
       case Finish(_) => me.Writing? && me.put == |me.response| && me.k in p.pending
       case CancelWrite(_) => me.WantWrite?
       case FailWrite(_) => me.Writing?
       case Stop(_) => me.Idle?
  }

  function Apply(p: Pool, a: Act): (r: Pool)
    requires a.w < |p.workers|
  {
    var w, me := a.w, p.workers[a.w];
    match a
    case Lock(_) => p.(workers := p.workers[w := Locked(p.shared)], reader := Some(w))
    case Receive(_, chunk) =>
      if me.Locked? then p.(workers := p.workers[w := Locked(me.local + chunk)], taken := p.taken + chunk) else p
    case FailRead(_) => p.(workers := p.workers[w := Exited], reader := None, torn := true)
    case Claim(_) =>
      if me.Locked? && MatchPacket(me.local).Some? && MatchPacket(me.local).value >= 4 then
        var n := MatchPacket(me.local).value;
        p.(workers := p.workers[w := Serving(|p.bodies|)], reader := None,
           shared := me.local[n..], bodies := p.bodies + [me.local[4..n]])
      else p
    case Serve(_, r) =>
      if me.Serving? && me.k < |p.bodies| then
        var response := Sent(r, RequestId(p.bodies[me.k]));
        p.(workers := p.workers[w := WantWrite(me.k, response)], pending := p.pending[me.k := r])
      else p
    case Abandon(_) =>
      if me.Serving? then p.(workers := p.workers[w := Exited], dropped := p.dropped + [me.k]) else p
    case LockWrite(_) =>
      if me.WantWrite? then p.(workers := p.workers[w := Writing(me.k, me.response, 0)], writer := Some(w)) else p
    case Put(_, n) =>
      if me.Writing? && me.put + n <= |me.response| then
        p.(workers := p.workers[w := me.(put := me.put + n)], out := p.out + me.response[me.put..me.put + n])
      else p
    case Finish(_) =>
      if me.Writing? && me.k in p.pending then
        p.(workers := p.workers[w := Idle], writer := None, answered := p.answered + [me.k],
           results := p.results + [p.pending[me.k]], responses := p.responses + [me.response])
      else p
    case CancelWrite(_) =>
      if me.WantWrite? then p.(workers := p.workers[w := Exited], dropped := p.dropped + [me.k]) else p
    case FailWrite(_) =>
      if me.Writing? then
        p.(workers := p.workers[w := Exited], writer := None, broken := true, dropped := p.dropped + [me.k])
      else p
    case Stop(_) => p.(workers := p.workers[w := Exited])
  }

  function Start(n: nat): (p: Pool) {
    Pool(seq(n, i => Idle), [], None, None, [], [], false, [], false, [], [], map[], [], [])
  }

  // ----- what every interleaving keeps

  ghost predicate Exclusive(p: Pool) {
    && (forall w | 0 <= w < |p.workers| :: p.workers[w].Locked? <==> p.reader == Some(w))
    && (forall w | 0 <= w < |p.workers| :: p.workers[w].Writing? <==> p.writer == Some(w))
    && (p.reader.Some? ==> p.reader.value < |p.workers|)
    && (p.writer.Some? ==>
          var w := p.writer.value;
          w < |p.workers| && p.workers[w].put <= |p.workers[w].response|)
  }

  /** The bytes behind the last claimed packet: under the lock, or left over. */
  function Tail(p: Pool): (s: bytes) {
    match p.reader
    case Some(w) => if w < |p.workers| && p.workers[w].Locked? then p.workers[w].local else []
    case None => p.shared
  }

  /** No packet is split, lost or claimed twice, as long as no read has failed. */
  ghost predicate Input(p: Pool) {
    && (!p.torn ==> p.taken == Frames(p.bodies) + Tail(p))
    && forall b <- p.bodies :: WellSized(b)
  }

  function Partial(p: Pool): (s: bytes) {
    match p.writer
    case Some(w) =>
      if w < |p.workers| && p.workers[w].Writing? && p.workers[w].put <= |p.workers[w].response|
      then p.workers[w].response[..p.workers[w].put] else []
    case None => []
  }

  ghost predicate Output(p: Pool) {
    !p.broken ==> p.out == Concat(p.responses) + Partial(p)
  }

  predicate Holds(x: Worker, k: nat) {
    (x.Serving? || x.WantWrite? || x.Writing?) && x.k == k
  }

  /** Each claimed packet is held by one worker, or answered once, or dropped once. */
  ghost predicate Accounts(p: Pool) {
    && H.Once(p.answered + p.dropped)
    && (forall k <- p.answered + p.dropped :: k < |p.bodies|)
    && (forall w, k: nat | 0 <= w < |p.workers| && Holds(p.workers[w], k) ::
          k < |p.bodies| && k !in p.answered + p.dropped)
    && (forall v, w, k: nat | 0 <= v < |p.workers| && 0 <= w < |p.workers| &&
          Holds(p.workers[v], k) && Holds(p.workers[w], k) :: v == w)
    && (forall k: nat | k < |p.bodies| && k !in p.answered + p.dropped ::
          exists w :: 0 <= w < |p.workers| && Holds(p.workers[w], k))
  }

  /** A reply to packet k: a possible, encodable result, encoded with the packet's id. */
  ghost predicate Answers(bodies: seq<bytes>, k: nat, r: Result, response: bytes) {
    && k < |bodies|
    && Possible(HandleFrame(bodies[k]), r) && Encodable(r)
    && response == Sent(r, RequestId(bodies[k]))
  }

  ghost predicate Faithful(p: Pool) {
    && |p.answered| == |p.results| == |p.responses|
    && (forall i | 0 <= i < |p.answered| ::
          && Answers(p.bodies, p.answered[i], p.results[i], p.responses[i])
          && p.answered[i] in p.pending && p.results[i] == p.pending[p.answered[i]])
    && (forall w | 0 <= w < |p.workers| :: Ready(p, p.workers[w]))
  }

  ghost predicate Ready(p: Pool, x: Worker) {
    x.WantWrite? || x.Writing? ==>
      x.k in p.pending && Answers(p.bodies, x.k, p.pending[x.k], x.response)
  }

  /** A packet is dropped, or a read or a write fails, only with the end of a worker. */
  ghost predicate Endings(p: Pool) {
    p.dropped != [] || p.torn || p.broken ==> exists w :: 0 <= w < |p.workers| && p.workers[w].Exited?
  }

  ghost predicate Inv(p: Pool) {
    Exclusive(p) && Input(p) && Output(p) && Accounts(p) && Faithful(p) && Endings(p)
  }

  lemma StartInv(n: nat)
    ensures Inv(Start(n))
  {
    hide MatchPacket, HandleFrame, Possible, Encodable, Sent, RequestId;
    var p := Start(n);
    var none: seq<nat> := [];
    assert p.answered + p.dropped == none;
    assert H.Once(none);
    assert forall w | 0 <= w < n :: p.workers[w] == Idle;
    assert forall w, k: nat | 0 <= w < n :: !Holds(p.workers[w], k);
    assert p.out == Concat(p.responses) + Partial(p);
  }

  lemma ExclusiveStep(p: Pool, a: Act)
    requires Exclusive(p) && Enabled(p, a)
    ensures Exclusive(Apply(p, a))
  {
    hide MatchPacket, HandleFrame, Possible, Encodable, Sent, RequestId;
  }

  lemma InputStep(p: Pool, a: Act)
    requires Exclusive(p) && Input(p) && Enabled(p, a)
    ensures Input(Apply(p, a))
  {
    hide HandleFrame, Possible, Encodable, Sent, RequestId, Frames, MatchPacket;
    match a {
      case Claim(w) => ClaimInput(p, w);
      case Receive(w, chunk) => Regroup(Frames(p.bodies), p.workers[w].local, chunk);
      case Lock(w) => assert Tail(Apply(p, a)) == Tail(p);
      case FailRead(w) =>
      case _ => assert Tail(Apply(p, a)) == Tail(p);
    }
  }

  lemma ClaimInput(p: Pool, w: nat)
    requires Exclusive(p) && Input(p) && Enabled(p, Claim(w))
    ensures Input(Apply(p, Claim(w)))
  {
    hide HandleFrame, Possible, Encodable, Sent, RequestId, Frames, MatchPacket, Frame;
    var local := p.workers[w].local;
    var n := MatchPacket(local).value;
    MatchIsFrame(local);
    FramesAppend(p.bodies, [local[4..n]]);
    ClientMux.FramesOne(local[4..n]);
    Regroup(Frames(p.bodies), local[..n], local[n..]);
    assert local[..n] + local[n..] == local;
  }

  lemma OutputStep(p: Pool, a: Act)
    requires Exclusive(p) && Output(p) && Enabled(p, a)
    ensures Output(Apply(p, a))
  {
    hide MatchPacket, HandleFrame, Possible, Encodable, Sent, RequestId, Concat;
    match a {
      case Put(w, n) => PutOutput(p, w, n);
      case Finish(w) =>
        var r := p.workers[w].response;
        ConcatSnoc(p.responses, r);
        assert r[..|r|] == r && Concat(p.responses) + r + [] == Concat(p.responses) + r;
      case LockWrite(w) => assert p.workers[w].response[..0] == [];
      case FailWrite(w) =>
      case _ => assert Partial(Apply(p, a)) == Partial(p);
    }
  }

  lemma PutOutput(p: Pool, w: nat, n: nat)
    requires Exclusive(p) && Output(p) && Enabled(p, Put(w, n))
    ensures Output(Apply(p, Put(w, n)))
  {
    hide MatchPacket, Concat;
    var r, put := p.workers[w].response, p.workers[w].put;
    assert r[..put] + r[put..put + n] == r[..put + n];
    Regroup(Concat(p.responses), r[..put], r[put..put + n]);
  }

  lemma AccountsStep(p: Pool, a: Act)
    requires Accounts(p) && Enabled(p, a)
    ensures Accounts(Apply(p, a))
  {
    hide MatchPacket, HandleFrame, Possible, Encodable, Sent, RequestId;
    var p' := Apply(p, a);
    match a {
      case Finish(w) => MovesTo(p, p', w, p.workers[w].k);
      case Abandon(w) => MovesTo(p, p', w, p.workers[w].k);
      case CancelWrite(w) => MovesTo(p, p', w, p.workers[w].k);
      case FailWrite(w) => MovesTo(p, p', w, p.workers[w].k);
      case Claim(w) => Claimed(p, p', w);
      case _ => SameHolders(p, p');
    }
  }

  /** Nothing changes hands. */
  lemma SameHolders(p: Pool, p': Pool)
    requires Accounts(p)
    requires p'.answered == p.answered && p'.dropped == p.dropped && p'.bodies == p.bodies
    requires |p'.workers| == |p.workers|
    requires forall w, k: nat | 0 <= w < |p.workers| :: Holds(p'.workers[w], k) <==> Holds(p.workers[w], k)
    ensures Accounts(p')
  {
    forall k: nat | k < |p'.bodies| && k !in p'.answered + p'.dropped
      ensures exists w :: 0 <= w < |p'.workers| && Holds(p'.workers[w], k)
    {
      var w :| 0 <= w < |p.workers| && Holds(p.workers[w], k);
      assert Holds(p'.workers[w], k);
    }
  }

  /** A packet leaves its worker and is entered in one of the two lists. */
  lemma MovesTo(p: Pool, p': Pool, w: nat, k: nat)
    requires Accounts(p) && w < |p.workers| && Holds(p.workers[w], k)
    requires |p'.workers| == |p.workers| && p'.bodies == p.bodies
    requires forall v, j: nat | 0 <= v < |p.workers| :: Holds(p'.workers[v], j) <==> (v != w && Holds(p.workers[v], j))
    requires || (p'.answered == p.answered + [k] && p'.dropped == p.dropped)
             || (p'.answered == p.answered && p'.dropped == p.dropped + [k])
    ensures Accounts(p')
  {
    var all, all' := p.answered + p.dropped, p'.answered + p'.dropped;
    OnceInsert(p.answered, p.dropped, k);
    assert forall j: nat :: j in all' <==> j in all || j == k;
    forall j: nat | j < |p'.bodies| && j !in all'
      ensures exists v :: 0 <= v < |p'.workers| && Holds(p'.workers[v], j)
    {
      var v :| 0 <= v < |p.workers| && Holds(p.workers[v], j);
      assert Holds(p'.workers[v], j);
    }
  }

  lemma OnceInsert(a: seq<nat>, d: seq<nat>, k: nat)
    requires H.Once(a + d) && k !in a + d
    ensures H.Once((a + [k]) + d) && H.Once(a + (d + [k]))
  {
    var s, t := (a + [k]) + d, a + (d + [k]);
    assert t == (a + d) + [k];
    forall i, j | 0 <= i < j < |s|
      ensures s[i] != s[j]
    {
      var f := (x: int) => if x < |a| then x else x - 1;
      assert i != |a| ==> s[i] == (a + d)[f(i)];
      assert j != |a| ==> s[j] == (a + d)[f(j)];
    }
  }

  lemma Claimed(p: Pool, p': Pool, w: nat)
    requires Accounts(p) && w < |p.workers| && p.workers[w].Locked?
    requires |p'.bodies| == |p.bodies| + 1 && p'.answered == p.answered && p'.dropped == p.dropped
    requires p'.workers == p.workers[w := Serving(|p.bodies|)]
    ensures Accounts(p')
  {
    var all := p.answered + p.dropped;
    assert p'.answered + p'.dropped == all && |p.bodies| !in all;
    assert forall v, k: nat | 0 <= v < |p'.workers| ::
        Holds(p'.workers[v], k) <==> if v == w then k == |p.bodies| else Holds(p.workers[v], k);
    forall k: nat | k < |p'.bodies| && k !in p'.answered + p'.dropped
      ensures exists v :: 0 <= v < |p'.workers| && Holds(p'.workers[v], k)
    {
      if k == |p.bodies| {
        assert Holds(p'.workers[w], k);
      } else {
        var v :| 0 <= v < |p.workers| && Holds(p.workers[v], k);
        assert Holds(p'.workers[v], k);
      }
    }
  }

  lemma FaithfulStep(p: Pool, a: Act)
    requires Accounts(p) && Faithful(p) && Enabled(p, a)
    ensures Faithful(Apply(p, a))
  {
    hide MatchPacket, HandleFrame, Possible, Encodable, Sent, RequestId;
    var p' := Apply(p, a);
    assert forall k | 0 <= k < |p.bodies| :: p'.bodies[k] == p.bodies[k];
    forall w | 0 <= w < |p'.workers|
      ensures Ready(p', p'.workers[w])
    {
      assert Ready(p, p.workers[w]);
      if a.Serve? && w != a.w {
        var x, y := p.workers[w], p.workers[a.w];
        assert Holds(y, y.k);
        if x.WantWrite? || x.Writing? {
          assert Holds(x, x.k);
        }
      }
    }
    if a.Serve? {
      assert Holds(p.workers[a.w], p.workers[a.w].k);
      assert p.workers[a.w].k !in p.answered + p.dropped;
    }
    assert a.Serve? ==> p.workers[a.w].k !in p.answered;
    hide Holds, Accounts;
    forall i | 0 <= i < |p'.answered|
      ensures Answers(p'.bodies, p'.answered[i], p'.results[i], p'.responses[i])
      ensures p'.answered[i] in p'.pending && p'.results[i] == p'.pending[p'.answered[i]]
    {
      if i < |p.answered| {
        assert Answers(p.bodies, p.answered[i], p.results[i], p.responses[i]);
      } else {
        assert Ready(p, p.workers[a.w]);
      }
    }
  }

  lemma EndingsStep(p: Pool, a: Act)
    requires Endings(p) && Enabled(p, a)
    ensures Endings(Apply(p, a))
  {
    hide MatchPacket, HandleFrame, Possible, Encodable, Sent, RequestId;
    var p' := Apply(p, a);
    if exists w :: 0 <= w < |p.workers| && p.workers[w].Exited? {
      var w :| 0 <= w < |p.workers| && p.workers[w].Exited?;
      assert p'.workers[w].Exited?;
    }
    if a.FailRead? || a.Abandon? || a.CancelWrite? || a.FailWrite? {
      assert p'.workers[a.w].Exited?;
    }
  }

  /** Every step of every interleaving keeps all of it. */
  lemma StepKeeps(p: Pool, a: Act)
    requires Inv(p) && Enabled(p, a)
    ensures Inv(Apply(p, a))
  {
    ExclusiveStep(p, a);
    InputStep(p, a);
    OutputStep(p, a);
    AccountsStep(p, a);
    FaithfulStep(p, a);
    EndingsStep(p, a);
    hide Exclusive, Input, Output, Accounts, Faithful, Endings, Apply, Enabled;
  }

  // ----- whole runs

  ghost predicate Legal(p: Pool, acts: seq<Act>)
    decreases |acts|
  {
    acts == [] || (Enabled(p, acts[0]) && Legal(Apply(p, acts[0]), acts[1..]))
  }

  ghost function After(p: Pool, acts: seq<Act>): (r: Pool)
    requires Legal(p, acts)
    decreases |acts|
  {
    if acts == [] then p else After(Apply(p, acts[0]), acts[1..])
  }

  lemma {:induction false} RunKeeps(p: Pool, acts: seq<Act>)
    requires Inv(p) && Legal(p, acts)
    ensures Inv(After(p, acts))
    decreases |acts|
  {
    if acts != [] {
      StepKeeps(p, acts[0]);
      hide Inv, Enabled, Apply;
      RunKeeps(Apply(p, acts[0]), acts[1..]);
    }
  }

  /** For any number of workers and any interleaving without a failed read: the packets claimed
      are, in order, the packets of the byte stream, and the rest of it is where the next reader
      starts. */
  lemma ClaimedInOrder(n: nat, acts: seq<Act>)
    requires Legal(Start(n), acts) && !After(Start(n), acts).torn
    ensures var p := After(Start(n), acts);
      && p.taken == Frames(p.bodies) + Tail(p)
      && Split(p.taken).bodies == p.bodies + Split(Tail(p)).bodies
  {
    StartInv(n);
    RunKeeps(Start(n), acts);
    var p := After(Start(n), acts);
    SplitFrames(p.bodies, Tail(p));
    hide Frames, Split, After;
  }

  function ReplyPackets(p: Pool, n: nat): (s: bytes)
    requires n <= |p.answered| && |p.answered| == |p.results|
    requires forall i | 0 <= i < n :: p.answered[i] < |p.bodies|
  {
    if n == 0 then []
    else ReplyPackets(p, n - 1) + ReplyPacket(p.results[n - 1], RequestId(p.bodies[p.answered[n - 1]]))
  }

  /** What is on the stream falls short of the packets by the headers that READ leaves out. */
  lemma {:induction false} OutputLength(p: Pool, n: nat)
    requires Faithful(p) && n <= |p.answered|
    ensures Concat(p.responses[..n]) == ReplyPackets(p, n) <==> forall i | 0 <= i < n :: !p.results[i].RData?
    ensures |Concat(p.responses[..n])| <= |ReplyPackets(p, n)|
  {
    hide Possible, HandleFrame, Encodable, RequestId, Sent, ReplyPacket;
    if n > 0 {
      OutputLength(p, n - 1);
      var i := n - 1;
      var r, id := p.results[i], RequestId(p.bodies[p.answered[i]]);
      assert Answers(p.bodies, p.answered[i], r, p.responses[i]);
      SentLength(r, id);
      assert p.responses[..n] == p.responses[..i] + [p.responses[i]];
      ConcatSnoc(p.responses[..i], p.responses[i]);
      SameSplit(Concat(p.responses[..i]), p.responses[i], ReplyPackets(p, i), ReplyPacket(r, id));
      hide Concat;
    } else {
      assert p.responses[..0] == [];
    }
  }

  lemma SentLength(r: Result, id: u32)
    ensures Sent(r, id) == ReplyPacket(r, id) <==> !r.RData?
    ensures |Sent(r, id)| <= |ReplyPacket(r, id)|
    ensures r.RData? ==> |Sent(r, id)| < |ReplyPacket(r, id)|
  {
    SentIsPacket(r, id);
    hide Packet, ReplyType;
  }

  lemma SameSplit(a: bytes, x: bytes, b: bytes, y: bytes)
    requires |a| <= |b| && |x| <= |y|
    ensures a + x == b + y <==> a == b && x == y
  {
    if a + x == b + y {
      assert |a| == |b| && |x| == |y|;
      assert a == (a + x)[..|a|] && b == (b + y)[..|b|];
      assert x == (a + x)[|a|..] && y == (b + y)[|b|..];
    }
  }

  /** Every packet answered has an id, and that is the id of the reply. */
  ghost predicate Echoed(p: Pool) {
    forall i | 0 <= i < |p.answered| ::
      && p.answered[i] < |p.bodies| && |p.bodies[p.answered[i]]| >= 5
      && RequestId(p.bodies[p.answered[i]]) == IdIn(p.bodies[p.answered[i]])
  }

  lemma EchoesIds(p: Pool)
    requires Faithful(p)
    ensures Echoed(p)
  {
    hide HandleFrame, RequestId, Encodable, Sent, IdIn;
    forall i | 0 <= i < |p.answered|
      ensures var k := p.answered[i]; |p.bodies[k]| >= 5 && RequestId(p.bodies[k]) == IdIn(p.bodies[k])
    {
      assert Answers(p.bodies, p.answered[i], p.results[i], p.responses[i]);
      RequestIdIs(p.bodies[p.answered[i]]);
    }
  }

  lemma OutputNow(p: Pool)
    requires Inv(p) && p.writer == None && !p.broken
    ensures Faithful(p) && Echoed(p)
    ensures p.out == ReplyPackets(p, |p.answered|) <==> forall r <- p.results :: !r.RData?
  {
    hide Possible, HandleFrame, Encodable, RequestId, Sent, Echoed, Input, Accounts, Endings;
    EchoesIds(p);
    OutputLength(p, |p.answered|);
    assert p.responses[..|p.answered|] == p.responses;
    assert p.out == Concat(p.responses);
  }

  /** With no write in progress and none failed, the output is the replies' packets, each with the
      id of the request it answers, exactly when no READ has succeeded. */
  lemma OutputIsPackets(n: nat, acts: seq<Act>)
    requires Legal(Start(n), acts) && After(Start(n), acts).writer == None && !After(Start(n), acts).broken
    ensures var p := After(Start(n), acts);
      && Faithful(p) && Echoed(p)
      && (p.out == ReplyPackets(p, |p.answered|) <==> forall r <- p.results :: !r.RData?)
  {
    StartInv(n);
    RunKeeps(Start(n), acts);
    hide After, Legal, Inv, Echoed, Start;
    OutputNow(After(Start(n), acts));
  }

  function ReplyBodies(p: Pool, n: nat): (s: seq<bytes>)
    requires n <= |p.answered| && |p.answered| == |p.results|
    requires forall i | 0 <= i < n :: p.answered[i] < |p.bodies|
  {
    if n == 0 then []
    else
      var r := p.results[n - 1];
      ReplyBodies(p, n - 1) + [Body(ReplyType(r), RequestId(p.bodies[p.answered[n - 1]]), ReplyPayload(r))]
  }

  lemma {:induction false} PacketsAreFrames(p: Pool, n: nat)
    requires Faithful(p) && n <= |p.answered| && forall r <- p.results :: Fits(r)
    ensures ReplyPackets(p, n) == Frames(ReplyBodies(p, n))
    ensures forall b <- ReplyBodies(p, n) :: WellSized(b)
  {
    hide Frame, Body, ReplyPacket, ReplyPayload, ReplyType, Possible, HandleFrame, RequestId, Sent, Fits;
    if n > 0 {
      hide Frames;
      PacketsAreFrames(p, n - 1);
      var r, id := p.results[n - 1], RequestId(p.bodies[p.answered[n - 1]]);
      assert r in p.results;
      var b := Body(ReplyType(r), id, ReplyPayload(r));
      FramesAppend(ReplyBodies(p, n - 1), [b]);
      ClientMux.FramesOne(b);
      PacketIsFrame(r, id);
    }
  }

  lemma PacketIsFrame(r: Result, id: u32)
    requires Fits(r)
    ensures var b := Body(ReplyType(r), id, ReplyPayload(r)); ReplyPacket(r, id) == Frame(b) && WellSized(b)
  {
    hide Frame, Body, ReplyType, ReplyPayload;
  }

  /** Then a receiver that splits the output finds exactly one reply for each packet answered,
      in the order of writing, and nothing else. */
  lemma RepliesReadable(n: nat, acts: seq<Act>)
    requires Legal(Start(n), acts) && After(Start(n), acts).writer == None && !After(Start(n), acts).broken
    requires forall r <- After(Start(n), acts).results :: !r.RData? && Fits(r)
    ensures var p := After(Start(n), acts);
      Faithful(p) && Echoed(p) && Split(p.out) == Parsed(ReplyBodies(p, |p.answered|), [])
  {
    OutputIsPackets(n, acts);
    var p := After(Start(n), acts);
    hide After, Legal, Possible, HandleFrame, Encodable, RequestId, Sent, Fits;
    PacketsAreFrames(p, |p.answered|);
    var bodies := ReplyBodies(p, |p.answered|);
    SplitFrames(bodies, []);
    EmptySplit();
    hide Split, Frames, ReplyPackets, ReplyBodies;
    assert Frames(bodies) + [] == Frames(bodies);
    assert bodies + [] == bodies;
  }

  lemma EmptySplit()
    ensures Split([]) == Parsed([], [])
  {
  }

  /** At most one answer for each packet claimed; exactly one when every worker is idle. */
  lemma AnsweredOnce(n: nat, acts: seq<Act>, k: nat)
    requires Legal(Start(n), acts) && k < |After(Start(n), acts).bodies|
    ensures var p := After(Start(n), acts);
      && H.Once(p.answered)
      && ((forall w | 0 <= w < |p.workers| :: p.workers[w].Idle?) ==> k in p.answered)
  {
    StartInv(n);
    RunKeeps(Start(n), acts);
    hide After, Legal;
    Accounted(After(Start(n), acts), k);
  }

  lemma Accounted(p: Pool, k: nat)
    requires Inv(p) && k < |p.bodies|
    ensures H.Once(p.answered)
    ensures (forall w | 0 <= w < |p.workers| :: p.workers[w].Idle?) ==> k in p.answered
  {
    hide Possible, HandleFrame, Encodable, RequestId, Sent, Faithful, Input, Output, Exclusive;
    var all := p.answered + p.dropped;
    forall i, j | 0 <= i < j < |p.answered|
      ensures p.answered[i] != p.answered[j]
    {
      assert all[i] == p.answered[i] && all[j] == p.answered[j];
    }
    if forall w | 0 <= w < |p.workers| :: p.workers[w].Idle? {
      assert p.dropped == [];
      assert all == p.answered;
    }
  }
}
