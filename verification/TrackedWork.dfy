/** tracked_work of the example server: a counter of live work tokens and a manual-reset event
    that lets waiters sleep until the counter is zero. Any number of tokens and waiters. */
module TrackedWork {

  datatype Waiter =
    | Testing     // at `working > 0`
    | Suspended   // queued on the event
    | Resuming    // taken off the queue by set(), about to clear the event
    | Returned    // wait() returned success
    | Failed      // wait() returned the event's error

  /** `tokens` are the live work objects; set() resumes every queued waiter. */
  datatype State = State(working: int, tokens: set<nat>, created: nat, event: bool, waiters: seq<Waiter>)

  const START: State := State(0, {}, 0, false, [])

  datatype Act =
    | Track               // track(): a new token
    | Copy(token: nat)    // the copy constructor, moves included
    | Drop(token: nat)    // the destructor: complete()
    | Wait                // wait() is called
    | Test(w: nat) | Resume(w: nat) | Cancel(w: nat)

  predicate Enabled(s: State, a: Act) {
    match a
    case Track => true
    case Copy(t) => t in s.tokens
    case Drop(t) => t in s.tokens
    case Wait => true
    case Test(w) => w < |s.waiters| && s.waiters[w].Testing?
    case Resume(w) => w < |s.waiters| && s.waiters[w].Resuming?
    case Cancel(w) => w < |s.waiters| && (s.waiters[w].Suspended? || s.waiters[w].Resuming?)
  }

  function WakeAll(ws: seq<Waiter>): (r: seq<Waiter>)
    ensures |r| == |ws|
    ensures forall i | 0 <= i < |ws| :: r[i] == if ws[i].Suspended? then Resuming else ws[i]
  {
    seq(|ws|, i requires 0 <= i < |ws| => if ws[i].Suspended? then Resuming else ws[i])
  }

  function Apply(s: State, a: Act): (r: State)
    requires Enabled(s, a)
  {
    match a
    case Track => s.(working := s.working + 1, tokens := s.tokens + {s.created}, created := s.created + 1)
    case Copy(_) => s.(working := s.working + 1, tokens := s.tokens + {s.created}, created := s.created + 1)
    case Drop(t) => s.(working := s.working - 1, tokens := s.tokens - {t}, event := true, waiters := WakeAll(s.waiters))
    case Wait => s.(waiters := s.waiters + [Testing])
    case Test(w) =>
      if s.working <= 0 then s.(waiters := s.waiters[w := Returned])
      else if s.event then s.(event := false)   // event.wait() is ready at once; clear, test again
      else s.(waiters := s.waiters[w := Suspended])
    case Resume(w) => s.(event := false, waiters := s.waiters[w := Testing])
    case Cancel(w) => s.(waiters := s.waiters[w := Failed])
  }

  ghost predicate Inv(s: State) {
    && s.working == |s.tokens| && (forall t <- s.tokens :: t < s.created)
    && forall w | 0 <= w < |s.waiters| && s.waiters[w].Suspended? :: s.working > 0 && !s.event
  }

  lemma StepKeeps(s: State, a: Act)
    requires Inv(s) && Enabled(s, a)
    ensures Inv(Apply(s, a))
  {
    if a.Drop? {
      assert |s.tokens - {a.token}| == |s.tokens| - 1;
    }
  }

  ghost predicate Legal(s: State, acts: seq<Act>)
    decreases |acts|
  {
    acts == [] || (Enabled(s, acts[0]) && Legal(Apply(s, acts[0]), acts[1..]))
  }

  ghost function After(s: State, acts: seq<Act>): (r: State)
    requires Legal(s, acts)
    decreases |acts|
  {
    if acts == [] then s else After(Apply(s, acts[0]), acts[1..])
  }

  lemma {:induction false} RunKeeps(s: State, acts: seq<Act>)
    requires Inv(s) && Legal(s, acts)
    ensures Inv(After(s, acts))
    decreases |acts|
  {
    if acts != [] {
      StepKeeps(s, acts[0]);
      hide Inv, Apply, Enabled;
      RunKeeps(Apply(s, acts[0]), acts[1..]);
    }
  }

  /** In every run: the counter is the number of live tokens, copies included, so it never
      underflows; and no wakeup is lost: when it is zero no waiter is left on the event. */
  lemma NoLostWakeup(acts: seq<Act>)
    requires Legal(START, acts)
    ensures var s := After(START, acts);
      && s.working == |s.tokens|
      && (s.working == 0 ==> forall w | 0 <= w < |s.waiters| :: !s.waiters[w].Suspended?)
  {
    RunKeeps(START, acts);
  }

  /** wait() reports success only at zero. */
  lemma SuccessAtZero(acts: seq<Act>, a: Act, w: nat)
    requires Legal(START, acts) && Enabled(After(START, acts), a)
    requires w < |After(START, acts).waiters| && !After(START, acts).waiters[w].Returned?
    requires Apply(After(START, acts), a).waiters[w].Returned?
    ensures a == Test(w) && After(START, acts).tokens == {}
  {
    RunKeeps(START, acts);
    hide After, Legal;
  }

  /** At zero every waiter that has not returned gets there by itself in at most two steps. */
  lemma WaitersFinish(acts: seq<Act>, w: nat) returns (steps: seq<Act>)
    requires Legal(START, acts) && After(START, acts).working == 0
    requires w < |After(START, acts).waiters| && !After(START, acts).waiters[w].Failed?
    ensures |steps| <= 2 && Legal(After(START, acts), steps)
    ensures w < |After(After(START, acts), steps).waiters|
    ensures After(After(START, acts), steps).waiters[w].Returned?
  {
    RunKeeps(START, acts);
    steps := Finish(After(START, acts), w);
  }

  lemma Finish(s: State, w: nat) returns (steps: seq<Act>)
    requires Inv(s) && s.working == 0 && w < |s.waiters| && !s.waiters[w].Failed?
    ensures |steps| <= 2 && Legal(s, steps)
    ensures w < |After(s, steps).waiters| && After(s, steps).waiters[w].Returned?
  {
    match s.waiters[w] {
      case Testing =>
        steps := [Test(w)];
        assert After(Apply(s, Test(w)), steps[1..]) == Apply(s, Test(w));
      case Resuming =>
        steps := [Resume(w), Test(w)];
        var t := Apply(s, Resume(w));
        assert steps[1..] == [Test(w)];
        assert After(Apply(t, Test(w)), [Test(w)][1..]) == Apply(t, Test(w));
      case Returned => steps := [];
    }
  }
}
