/** Whole lives of a response queue: requests are issued, frames arrive, reads fail. Requests
    are numbered in the order of issue; the id of request n is n in 32 bits. */
module RequestHistory {
  import opened Wire
  import opened Framing
  import opened ResponseQueues

  function IdOf(n: nat): (id: u32) {
    Narrow(n)
  }

  function IdsOf(chain: seq<nat>): (ids: seq<u32>)
    ensures |ids| == |chain|
    ensures forall i | 0 <= i < |chain| :: ids[i] == IdOf(chain[i])
  {
    seq(|chain|, i requires 0 <= i < |chain| => IdOf(chain[i]))
  }

  /** `completions` lists the requests whose record was completed, in order. */
  datatype History = History(issued: nat, queue: Queue<nat>, completions: seq<nat>) {
    predicate Done(n: nat) {
      n in completions
    }
  }

  const START: History := History(0, Queue([], false), [])

  datatype Op = Issue | Answer(id: u32) | Cancel

  function Step(h: History, op: Op): (r: History) {
    match op
    case Issue => h.(issued := h.issued + 1, queue := Enqueue(h.queue, h.issued))
    case Answer(id) =>
      (match FindId(IdsOf(h.queue.chain), id)
       case None => h
       case Some(k) => h.(queue := CompleteAt(h.queue, k), completions := h.completions + [h.queue.chain[k]]))
    case Cancel => h.(queue := Queue([], false), completions := h.completions + h.queue.chain)
  }

  function Run(h: History, ops: seq<Op>): (r: History)
    decreases |ops|
  {
    if ops == [] then h else Run(Step(h, ops[0]), ops[1..])
  }

  // ----- what the list looks like

  function From(lo: nat, hi: nat): (s: seq<nat>)
    requires lo <= hi
    ensures |s| == hi - lo && forall i | 0 <= i < |s| :: s[i] == lo + i
  {
    seq(hi - lo, i requires 0 <= i < hi - lo => lo + i)
  }

  /** The first request on the list; the list is a stretch of requests up to the newest. */
  function Low(h: History): (lo: int) {
    h.issued - |h.queue.chain|
  }

  ghost predicate Inv(h: History) {
    && |h.queue.chain| <= h.issued
    && h.queue.chain == From(Low(h), h.issued)
    && (h.queue.open <==> h.queue.chain != [] && !h.Done(h.issued - 1))
    && (h.issued > 0 && h.queue.chain == [] ==> h.Done(h.issued - 1))
    && (forall n <- h.completions :: n < h.issued)
  }

  /** In every life: the list is always the requests from some point up to the newest, with the
      completed ones still on it, and `last` is set exactly when the newest is unanswered. */
  lemma StepInv(h: History, op: Op)
    requires Inv(h)
    ensures Inv(Step(h, op))
  {
    match op {
      case Issue => assert Step(h, op).queue.chain == From(Low(Step(h, op)), h.issued + 1);
      case Answer(id) =>
      case Cancel => assert h.issued > 0 && h.queue.chain != [] ==> h.queue.chain[|h.queue.chain| - 1] == h.issued - 1;
    }
  }

  lemma {:induction false} RunInv(h: History, ops: seq<Op>)
    requires Inv(h)
    ensures Inv(Run(h, ops))
    decreases |ops|
  {
    if ops != [] {
      StepInv(h, ops[0]);
      RunInv(Step(h, ops[0]), ops[1..]);
    }
  }

  // ----- requests that can no longer be answered

  ghost predicate Lost(h: History, n: nat) {
    n < h.issued && !h.Done(n) && n !in h.queue.chain
  }

  ghost predicate Lossless(h: History) {
    forall n: nat :: !Lost(h, n)
  }

  /** A request is issued although the newest one has been answered while an older one has not. */
  ghost predicate Careless(h: History, op: Op) {
    op.Issue? && h.issued > 0 && h.Done(h.issued - 1) && exists n: nat :: n < h.issued && !h.Done(n)
  }

  lemma LossStep(h: History, op: Op)
    requires Inv(h)
    ensures Lossless(Step(h, op)) <==> Lossless(h) && !Careless(h, op)
  {
    var h' := Step(h, op);
    if !Lossless(h) {
      var n: nat :| Lost(h, n);
      LostStaysLost(h, n, op);
    } else if Careless(h, op) {
      var n: nat :| n < h.issued && !h.Done(n);
      assert Lost(h', n);
    } else {
      forall n: nat
        ensures !Lost(h', n)
      {
        assert !Lost(h, n);
        if op.Issue? && n < h.issued && !h.Done(n) {
          assert h.queue.open;
        }
        if op.Cancel? && n in h.queue.chain {
          assert n in h'.completions;
        }
      }
    }
  }

  /** No frame and no cancellation ever reaches a lost request again. */
  lemma LostStaysLost(h: History, n: nat, op: Op)
    requires Inv(h) && Lost(h, n)
    ensures Lost(Step(h, op), n)
  {
  }

  lemma {:induction false} LostForever(h: History, n: nat, ops: seq<Op>)
    requires Inv(h) && Lost(h, n)
    ensures Lost(Run(h, ops), n)
    decreases |ops|
  {
    if ops != [] {
      StepInv(h, ops[0]);
      LostStaysLost(h, n, ops[0]);
      LostForever(Step(h, ops[0]), n, ops[1..]);
    }
  }

  /** If every single step keeps `good` exactly when it is not `bad`, a run does so exactly when
      none of its steps is bad in the state in which it is taken. */
  lemma {:induction false} RunsExactly(h: History, ops: seq<Op>, good: History -> bool, bad: (History, Op) -> bool)
    requires Inv(h)
    requires forall g, op {:trigger Step(g, op)} :: Inv(g) ==> (good(Step(g, op)) <==> good(g) && !bad(g, op))
    ensures good(Run(h, ops)) <==> good(h) && forall i | 0 <= i < |ops| :: !bad(Run(h, ops[..i]), ops[i])
    decreases |ops|
  {
    hide Step, Inv;
    if ops != [] {
      var h', rest := Step(h, ops[0]), ops[1..];
      StepInv(h, ops[0]);
      RunsExactly(h', rest, good, bad);
      assert Run(h, ops[..0]) == h;
      forall i | 0 <= i < |rest|
        ensures Run(h, ops[..i + 1]) == Run(h', rest[..i]) && ops[i + 1] == rest[i]
      {
        assert ops[..i + 1][1..] == rest[..i];
      }
      assert (forall i | 0 <= i < |rest| :: !bad(Run(h', rest[..i]), rest[i]))
        <==> (forall i | 0 < i < |ops| :: !bad(Run(h, ops[..i]), ops[i])) by {
        assert forall i | 0 < i < |ops| :: Run(h, ops[..i]) == Run(h', rest[..i - 1]) && ops[i] == rest[i - 1];
        assert forall i | 0 <= i < |rest| :: Run(h', rest[..i]) == Run(h, ops[..i + 1]) && rest[i] == ops[i + 1];
      }
    }
  }

  /** Every unanswered request can still be answered exactly when no request was ever issued
      carelessly: the precise discipline under which the list as written does its job. */
  lemma LosslessRuns(h: History, ops: seq<Op>)
    requires Inv(h)
    ensures Lossless(Run(h, ops))
       <==> Lossless(h) && forall i | 0 <= i < |ops| :: !Careless(Run(h, ops[..i]), ops[i])
  {
    forall g, op | Inv(g)
      ensures Lossless(Step(g, op)) <==> Lossless(g) && !Careless(g, op)
    {
      LossStep(g, op);
    }
    hide Step, Run, Inv, Lossless, Careless;
    RunsExactly(h, ops, Lossless, Careless);
  }

  /** Two requests outstanding, the younger answered first, then a third issued: the first
      request is off the list and stays unanswered whatever arrives. */
  lemma RequestLost(later: seq<Op>)
    ensures Lost(Run(Run(START, [Issue, Issue, Answer(1), Issue]), later), 0)
  {
    YoungerFirst();
    var ops := [Issue, Issue, Answer(1), Issue];
    hide Step, Run;
    RunInv(START, ops);
    LostForever(Run(START, ops), 0, later);
  }

  lemma YoungerFirst()
    ensures Run(START, [Issue, Issue, Answer(1), Issue]) == History(3, Queue([2], true), [1])
  {
    var h2 := Step(Step(START, Issue), Issue);
    TwoIssued();
    AnswerYounger(h2);
    hide Step;
    assert [Issue, Issue, Answer(1), Issue][1..] == [Issue, Answer(1), Issue];
    assert [Issue, Answer(1), Issue][1..] == [Answer(1), Issue];
    RunTwo(h2, Answer(1), Issue);
  }

  lemma TwoIssued()
    ensures Step(Step(START, Issue), Issue) == History(2, Queue([0, 1], true), [])
  {
    assert [0] + [1] == [0, 1];
  }

  lemma AnswerYounger(h: History)
    requires h == History(2, Queue([0, 1], true), [])
    ensures Step(Step(h, Answer(1)), Issue) == History(3, Queue([2], true), [1])
  {
    FindYounger();
    hide FindId, IdsOf;
    assert h.completions + [1] == [1];
  }

  lemma FindYounger()
    ensures FindId(IdsOf([0, 1]), 1) == Some(1)
  {
    assert IdsOf([0, 1]) == [0, 1];
    hide IdsOf;
    FindIdIs([0, 1], 1, 1);
  }

  lemma RunTwo(h: History, a: Op, b: Op)
    ensures Run(h, [a, b]) == Step(Step(h, a), b)
  {
    hide Step;
    assert [a, b][1..] == [b];
    assert Run(Step(h, a), [b]) == Run(Step(Step(h, a), b), []);
  }

  // ----- which record a frame completes

  /** With no more than 2^32 requests on the list the ids on it are distinct, so a frame
      completes the one record that carries its id. */
  lemma AnswerSelects(h: History, n: nat)
    requires Inv(h) && n in h.queue.chain && |h.queue.chain| <= TWO_32
    ensures FindId(IdsOf(h.queue.chain), IdOf(n)) == Some(n - Low(h))
    ensures Step(h, Answer(IdOf(n))).completions == h.completions + [n]
  {
    var k := n - Low(h);
    var ids := IdsOf(h.queue.chain);
    forall j | 0 <= j < k
      ensures ids[j] != IdOf(n)
    {
      NarrowDistinct(h.queue.chain[j], n);
    }
    FindIdIs(ids, IdOf(n), k);
  }

  /** The bound is exact: with one request more on the list, its id belongs to an older one. */
  lemma IdsSelect(h: History)
    requires Inv(h)
    ensures (forall n <- h.queue.chain :: FindId(IdsOf(h.queue.chain), IdOf(n)) == Some(n - Low(h)))
       <==> |h.queue.chain| <= TWO_32
  {
    hide FindId;
    var chain := h.queue.chain;
    if |chain| <= TWO_32 {
      forall n <- chain
        ensures FindId(IdsOf(chain), IdOf(n)) == Some(n - Low(h))
      {
        AnswerSelects(h, n);
      }
    } else {
      var n := chain[TWO_32];
      assert n == Low(h) + TWO_32 && n in chain;
      SameNarrow(chain[0]);
      assert IdsOf(chain)[0] == IdOf(n);
      FindIdIs(IdsOf(chain), IdOf(n), 0);
    }
  }

  lemma SameNarrow(n: nat)
    ensures Narrow(n + TWO_32) == Narrow(n)
  {
    assert n + TWO_32 == (n / TWO_32 + 1) * TWO_32 + n % TWO_32;
  }

  lemma NarrowDistinct(m: nat, n: nat)
    requires m < n < m + TWO_32
    ensures Narrow(m) != Narrow(n)
  {
    var q, p := n / TWO_32, m / TWO_32;
    assert n - m == (q - p) * TWO_32 + (n % TWO_32 - m % TWO_32);
  }

  ghost predicate Once(s: seq<nat>) {
    forall i, j | 0 <= i < j < |s| :: s[i] != s[j]
  }

  /** A request is on the list from its issue until the next issue that finds the newest request
      answered, or the next cancellation. */
  lemma LowMoves(h: History, op: Op)
    requires Inv(h)
    ensures Low(Step(h, op)) == match op
      case Issue => if h.issued == 0 || h.Done(h.issued - 1) then h.issued else Low(h)
      case Answer(_) => Low(h)
      case Cancel => h.issued
  {
    hide FindId;
  }

  /** The oldest request on the list with this id. */
  ghost predicate Oldest(h: History, n: nat, id: u32) {
    Low(h) <= n < h.issued && IdOf(n) == id && forall m: nat | Low(h) <= m < n :: IdOf(m) != id
  }

  /** A reply repeats the id of a request that was answered and is still on the list, or the
      connection ends while an answered request is still on it. */
  ghost predicate Reaches(h: History, op: Op) {
    match op
    case Issue => false
    case Answer(id) => exists n: nat :: Oldest(h, n, id) && h.Done(n)
    case Cancel => exists n: nat :: Low(h) <= n < h.issued && h.Done(n)
  }

  /** With no more than 2^32 requests on the list an id has only one of them. */
  lemma OldestIsOnly(h: History, n: nat, id: u32)
    requires Inv(h) && |h.queue.chain| <= TWO_32
    ensures Oldest(h, n, id) <==> Low(h) <= n < h.issued && IdOf(n) == id
  {
    forall m: nat | Low(h) <= m < n < h.issued
      ensures IdOf(m) != IdOf(n)
    {
      NarrowDistinct(m, n);
    }
  }

  /** What a step appends to the completions. */
  lemma Completes(h: History, op: Op)
    requires Inv(h)
    ensures var more := Step(h, op).completions;
      match op
      case Issue => more == h.completions
      case Answer(id) =>
        || (more == h.completions && forall n: nat :: !Oldest(h, n, id))
        || exists n: nat :: Oldest(h, n, id) && more == h.completions + [n]
      case Cancel => more == h.completions + From(Low(h), h.issued)
  {
    if op.Answer? {
      var ids := IdsOf(h.queue.chain);
      match FindId(ids, op.id) {
        case Some(k) =>
          assert forall j | 0 <= j < k :: ids[..k][j] == ids[j];
          var n := h.queue.chain[k];
          forall m: nat | Low(h) <= m < n
            ensures IdOf(m) != op.id
          {
            assert ids[..k][m - Low(h)] == IdOf(m);
          }
          assert Oldest(h, n, op.id);
        case None =>
          forall n: nat
            ensures !Oldest(h, n, op.id)
          {
            if Low(h) <= n < h.issued {
              assert ids[n - Low(h)] == IdOf(n);
            }
          }
      }
    }
  }

  lemma OnceAppend(s: seq<nat>, t: seq<nat>)
    requires Once(t)
    ensures Once(s + t) <==> Once(s) && forall n <- t :: n !in s
  {
    var u := s + t;
    if Once(u) {
      forall i, j | 0 <= i < j < |s|
        ensures s[i] != s[j]
      {
        assert u[i] == s[i] && u[j] == s[j];
      }
      forall n <- t
        ensures n !in s
      {
        var j :| 0 <= j < |t| && t[j] == n;
        forall i | 0 <= i < |s|
          ensures s[i] != n
        {
          assert u[i] != u[|s| + j];
        }
      }
    }
    if Once(s) && forall n <- t :: n !in s {
      forall i, j | 0 <= i < j < |u|
        ensures u[i] != u[j]
      {
        if i < |s| <= j {
          assert t[j - |s|] in t && s[i] in s;
        }
      }
    }
  }

  lemma OnceStep(h: History, op: Op)
    requires Inv(h)
    ensures Once(Step(h, op).completions) <==> Once(h.completions) && !Reaches(h, op)
  {
    Completes(h, op);
    hide Step;
    var s, u := h.completions, Step(h, op).completions;
    match op {
      case Issue =>
      case Answer(id) =>
        if u != s {
          var n: nat :| Oldest(h, n, id) && u == s + [n];
          OnceAppend(s, [n]);
          assert forall m: nat :: Oldest(h, m, id) ==> m == n;
        } else {
          NotLonger(s);
        }
      case Cancel =>
        var t := From(Low(h), h.issued);
        OnceAppend(s, t);
        forall n: nat
          ensures n in t <==> Low(h) <= n < h.issued
        {
          if Low(h) <= n < h.issued {
            assert t[n - Low(h)] == n;
          }
        }
        if Reaches(h, op) {
          var n: nat :| Low(h) <= n < h.issued && h.Done(n);
          assert n in t;
        } else {
          assert forall n <- t :: !h.Done(n);
        }
    }
  }

  lemma NotLonger(s: seq<nat>)
    ensures forall n: nat :: s + [n] != s
  {
    forall n: nat
      ensures s + [n] != s
    {
      assert |s + [n]| == |s| + 1;
    }
  }

  /** Every record is completed at most once in a run exactly when no reply repeats the id of an
      answered request that is still on the list, and no connection ends while one is. */
  lemma OnceRuns(h: History, ops: seq<Op>)
    requires Inv(h)
    ensures Once(Run(h, ops).completions)
       <==> Once(h.completions) && forall i | 0 <= i < |ops| :: !Reaches(Run(h, ops[..i]), ops[i])
  {
    var good := (g: History) => Once(g.completions);
    forall g, op | Inv(g)
      ensures good(Step(g, op)) <==> good(g) && !Reaches(g, op)
    {
      OnceStep(g, op);
    }
    hide Step, Run, Inv, Once, Reaches;
    RunsExactly(h, ops, good, Reaches);
  }

  /** One request, answered; then the connection ends: its record is completed a second time. */
  lemma CompletedTwice()
    ensures Run(START, [Issue, Answer(0), Cancel]).completions == [0, 0]
  {
    var h1 := Step(START, Issue);
    assert h1.queue.chain == [0];
    FindIdIs(IdsOf(h1.queue.chain), 0, 0);
    var h2 := Step(h1, Answer(0));
    assert [Issue, Answer(0), Cancel][1..] == [Answer(0), Cancel];
    RunTwo(h1, Answer(0), Cancel);
    assert h2.completions == [0];
  }
}
