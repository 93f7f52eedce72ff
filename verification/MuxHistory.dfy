/** The list inside a run of the multiplexer lives a history of RequestHistory, so the conditions
    found there are conditions on every interleaving of the coroutines. */
module MuxHistory {
  import opened Framing
  import opened Packets
  import opened ClientMux
  import H = RequestHistory

  /** What a step does to the list: nothing, or one operation. */
  function OpOf(m: Mux, a: Act): (ops: seq<H.Op>)
    requires Enabled(m, a)
    ensures |ops| <= 1
  {
    match a
    case Issue(_) => [H.Issue]
    case Dispatch(_) => if Short(m) then [] else [H.Answer(IdIn(Matched(m)))]
    case Fail(_, _) => [H.Cancel]
    case _ => []
  }

  ghost function Ops(m: Mux, acts: seq<Act>): (ops: seq<H.Op>)
    requires Inv(m) && Legal(m, acts)
    decreases |acts|
  {
    if acts == [] then []
    else
      StepKeeps(m, acts[0]);
      OpOf(m, acts[0]) + Ops(Apply(m, acts[0]), acts[1..])
  }

  lemma {:induction false} RunAppend(h: H.History, a: seq<H.Op>, b: seq<H.Op>)
    ensures H.Run(h, a + b) == H.Run(H.Run(h, a), b)
    decreases |a|
  {
    hide H.Step;
    if a == [] {
      assert a + b == b;
    } else {
      assert (a + b)[1..] == a[1..] + b;
      RunAppend(H.Step(h, a[0]), a[1..], b);
    }
  }

  lemma StepRuns(m: Mux, a: Act)
    requires Enabled(m, a) && forall n <- m.h.queue.chain :: n < |m.calls|
    ensures Apply(m, a).h == H.Run(m.h, OpOf(m, a))
  {
    hide H.Step, MatchPacket, IdIn, Matched, Deliver, Short;
    assert forall op: H.Op :: [op][1..] == [];
    assert forall op: H.Op :: H.Run(m.h, [op]) == H.Run(H.Step(m.h, op), []);
  }

  lemma {:induction false} HistoryRuns(m: Mux, acts: seq<Act>)
    requires Inv(m) && Legal(m, acts)
    ensures After(m, acts).h == H.Run(m.h, Ops(m, acts))
    decreases |acts|
  {
    if acts != [] {
      hide Apply, Enabled, Inv, OpOf, H.Run;
      StepKeeps(m, acts[0]);
      StepRuns(m, acts[0]);
      HistoryRuns(Apply(m, acts[0]), acts[1..]);
      RunAppend(m.h, OpOf(m, acts[0]), Ops(Apply(m, acts[0]), acts[1..]));
    }
  }

  /** In every interleaving: each coroutine without an answer can still get one exactly when no
      request was issued while the newest was answered and an older one was not. */
  lemma NoneStranded(acts: seq<Act>)
    requires Inv(START) && Legal(START, acts)
    ensures var ops := Ops(START, acts);
      H.Lossless(After(START, acts).h)
      <==> forall i | 0 <= i < |ops| :: !H.Careless(H.Run(H.START, ops[..i]), ops[i])
  {
    HistoryRuns(START, acts);
    var ops := Ops(START, acts);
    hide H.Run, H.Careless, H.Step, Ops, After, Legal;
    H.LosslessRuns(H.START, ops);
  }

  /** In every interleaving: no record is completed twice exactly when no packet repeats the id of
      an answered request that is still on the list, and no read fails while one is. */
  lemma NoneTwice(acts: seq<Act>)
    requires Inv(START) && Legal(START, acts)
    ensures var ops := Ops(START, acts);
      H.Once(After(START, acts).h.completions)
      <==> forall i | 0 <= i < |ops| :: !H.Reaches(H.Run(H.START, ops[..i]), ops[i])
  {
    HistoryRuns(START, acts);
    var ops := Ops(START, acts);
    hide H.Run, H.Reaches, H.Step, Ops, After, Legal;
    H.OnceRuns(H.START, ops);
  }
}
