// The resolver worker as atomic steps of three actors: the event-loop thread,
// the worker thread, and libunbound, which answers outstanding requests in any
// order and at any time while it is waited on.
module Worker {
  import opened Bytes
  import opened RspList

  // The worker thread: not running; about to wait for pending requests; inside
  // ub_wait; in the result callback, between the two lists; about to signal the
  // loop; told to exit; finished.
  datatype Thread = Off | Waiting | Polling | Holding(t: nat) | Announcing | Leaving | Gone

  // A resolve call on the loop thread, after its request entered the pending list.
  datatype Call = NoCall | Entered(t: nat) | Refused(t: nat)

  datatype State = State(
    open: bool, exit: bool, freed: bool,
    pending: seq<nat>, queue: seq<nat>,
    outstanding: set<nat>,
    thread: Thread, call: Call,
    draining: bool, held: seq<nat>,
    wake: bool, quit: bool,
    // History.
    next: nat, accepted: seq<nat>, dropped: seq<nat>, answered: seq<nat>,
    results: map<nat, int>, delivered: seq<(nat, int)>)

  datatype Step =
    | Open
    | Enter                  // resolve: enters the pending list
    | Submit(ok: bool)       // ub_resolve_async
    | Drop                   // the request could not be sent
    | Close
    | Wait                   // hsk_rs_pending_wait returns
    | Answer(t: nat, result: int)
    | Hand                   // the response enters the queue
    | Signal                 // uv_async_send
    | Settle                 // ub_wait returns
    | Leave                  // the worker thread ends
    | Wake                   // after_resolve_async starts
    | Dequeue
    | Deliver                // the callback
    | Quit                   // after_quit_async
    | Free                   // hsk_rs_queue_free delivers what is left

  function Initial(): State {
    State(false, false, false, [], [], {}, Off, NoCall, false, [], false, false, 0, [], [], [], map[], [])
  }

  // The loop thread is between events.
  predicate Idle(s: State) {
    s.call.NoCall? && !s.draining && s.held == []
  }

  // When each step can be taken.  The callers' duties are those the source
  // states: open only when closed, close only when open, destroy only after the
  // stop callback; and one it does not state: a response callback does not
  // destroy the worker that is still handing out responses.
  predicate Enabled(s: State, step: Step) {
    match step
    case Open => s.call.NoCall? && s.held == [] && !s.open && !s.exit && !s.freed
    case Enter => s.call.NoCall? && s.held == [] && s.open && !s.exit
    case Submit(_) => s.call.Entered?
    case Drop => s.call.Refused?
    case Close => s.call.NoCall? && s.held == [] && (s.open || s.exit)
    case Wait => s.thread.Waiting? && (s.pending != [] || s.exit)
    case Answer(t, _) => s.thread.Polling? && t in s.outstanding
    case Hand => s.thread.Holding?
    case Signal => s.thread.Announcing?
    case Settle => s.thread.Polling? && s.outstanding == {}
    case Leave => s.thread.Leaving?
    case Wake => Idle(s) && s.wake
    case Dequeue => s.call.NoCall? && s.draining && s.held == []
    case Deliver => s.call.NoCall? && s.held != []
    case Quit => Idle(s) && s.quit
    case Free => Idle(s) && !s.freed && !s.open && !s.exit
  }

  // The callbacks for the given responses, in order.
  function Calls(results: map<nat, int>, ts: seq<nat>): seq<(nat, int)> {
    if ts == [] then []
    else [(ts[0], if ts[0] in results then results[ts[0]] else 0)] + Calls(results, ts[1..])
  }

  function Apply(s: State, step: Step): State
    requires Enabled(s, step)
  {
    match step
    case Open => s.(open := true, thread := Waiting)
    case Enter => s.(pending := s.pending + [s.next], call := Entered(s.next), next := s.next + 1)
    case Submit(ok) =>
      if ok then s.(outstanding := s.outstanding + {s.call.t}, accepted := s.accepted + [s.call.t], call := NoCall)
      else s.(call := Refused(s.call.t))
    case Drop => s.(pending := Without(s.pending, s.call.t), dropped := s.dropped + [s.call.t], call := NoCall)
    case Close => s.(exit := true)
    case Wait => s.(thread := if s.pending != [] then Polling else Leaving)
    case Answer(t, r) =>
      s.(pending := Without(s.pending, t), outstanding := s.outstanding - {t}, results := s.results[t := r], thread := Holding(t))
    case Hand => s.(queue := s.queue + [s.thread.t], answered := s.answered + [s.thread.t], thread := Announcing)
    case Signal => s.(wake := true, thread := Polling)
    case Settle => s.(thread := Waiting)
    case Leave => s.(quit := true, thread := Gone)
    case Wake => s.(wake := false, draining := !s.freed)
    case Dequeue => if s.queue == [] then s.(draining := false) else s.(held := [s.queue[0]], queue := s.queue[1..])
    case Deliver => s.(delivered := s.delivered + Calls(s.results, s.held), held := [])
    case Quit => s.(quit := false, exit := false, open := false, thread := Off)
    case Free => s.(delivered := s.delivered + Calls(s.results, s.queue), queue := [], freed := true)
  }

  // The assertions in the source that each step passes, apart from those inside
  // the list operations, which hold of linked lists (WorkerLists).
  predicate Asserted(s: State, step: Step) {
    match step
    case Drop => s.call.Refused? && s.call.t in s.pending
    case Close => s.exit || s.open
    case Wait => s.pending != [] ==> s.open
    case Answer(t, _) => t in s.pending
    case Quit => s.pending == [] && s.thread.Gone? && !s.freed
    case Free => s.pending == [] && s.thread.Off?
    case _ => true
  }

  // ----- Invariants -----

  function InCall(s: State): seq<nat> {
    if s.call.NoCall? then [] else [s.call.t]
  }

  function InThread(s: State): seq<nat> {
    if s.thread.Holding? then [s.thread.t] else []
  }

  function Names(d: seq<(nat, int)>): seq<nat> {
    if d == [] then [] else [d[0].0] + Names(d[1..])
  }

  function Count(s: seq<nat>, t: nat): nat {
    if s == [] then 0 else (if s[0] == t then 1 else 0) + Count(s[1..], t)
  }

  function One(b: bool): nat {
    if b then 1 else 0
  }

  // In how many places request t is.
  function Places(s: State, t: nat): nat {
    Count(s.pending, t) + Count(InThread(s), t) + Count(s.queue, t) + Count(s.held, t) + Count(Names(s.delivered), t) + Count(s.dropped, t)
  }

  // Each request made is in one place; it is accepted, dropped, or in the
  // middle of a call; and what is pending is what libunbound has, and the
  // request of the current call.
  ghost predicate AccountedFor(s: State, t: nat) {
    && Places(s, t) == One(t < s.next)
    && Count(s.accepted, t) + Count(s.dropped, t) + Count(InCall(s), t) == One(t < s.next)
    && Count(s.pending, t) == One(t in s.outstanding) + Count(InCall(s), t)
  }

  ghost predicate Accounted(s: State) {
    forall t: nat {:trigger AccountedFor(s, t)} :: AccountedFor(s, t)
  }

  // Every callback got the result of its own request.
  predicate OwnResults(results: map<nat, int>, d: seq<(nat, int)>) {
    forall i :: 0 <= i < |d| ==> d[i].0 in results && d[i].1 == results[d[i].0]
  }

  // Responses leave in the order they were queued, each with its own result.
  ghost predicate Ordered(s: State) {
    && Names(s.delivered) + s.held + s.queue == s.answered
    && (forall t :: t in s.answered ==> t in s.results)
    && (s.thread.Holding? ==> s.thread.t in s.results)
    && OwnResults(s.results, s.delivered)
  }

  // How the flags go together.
  ghost predicate Phased(s: State) {
    && (s.open <==> !s.thread.Off?)
    && (s.exit ==> s.open && s.call.NoCall?)
    && (!s.call.NoCall? ==> s.open)
    && (s.thread.Leaving? || s.thread.Gone? ==> s.exit && s.pending == [])
    && (s.quit <==> s.thread.Gone?)
    && (!s.open ==> s.pending == [])
    && (s.freed ==> !s.open && s.queue == [] && s.held == [] && !s.draining && s.call.NoCall?)
    && |s.held| <= 1
    && (s.held != [] ==> s.draining)
  }

  // A queued response is never forgotten: the loop is draining, or has been or
  // is about to be signalled.
  ghost predicate Awake(s: State) {
    s.queue != [] ==> s.wake || s.draining || s.thread.Announcing?
  }

  ghost predicate Inv(s: State) {
    Accounted(s) && Ordered(s) && Phased(s) && Awake(s)
  }

  // ----- Counting -----

  lemma {:induction false} CountAppend(a: seq<nat>, b: seq<nat>, t: nat)
    ensures Count(a + b, t) == Count(a, t) + Count(b, t)
  {
    if a == [] {
      assert [] + b == b;
    } else {
      assert (a + b)[1..] == a[1..] + b;
      CountAppend(a[1..], b, t);
    }
  }

  lemma CountOne(x: nat, t: nat)
    ensures Count([x], t) == One(t == x)
  {
  }

  lemma {:induction false} CountWithout(s: seq<nat>, x: nat, t: nat)
    requires x in s
    ensures Count(s, t) == Count(Without(s, x), t) + One(t == x)
  {
    if s[0] != x {
      CountWithout(s[1..], x, t);
    }
  }

  lemma {:induction false} CountIn(s: seq<nat>, t: nat)
    ensures Count(s, t) > 0 <==> t in s
  {
    if s != [] {
      CountIn(s[1..], t);
    }
  }

  lemma {:induction false} NamesAppend(a: seq<(nat, int)>, b: seq<(nat, int)>)
    ensures Names(a + b) == Names(a) + Names(b)
  {
    if a == [] {
      assert [] + b == b;
    } else {
      assert (a + b)[1..] == a[1..] + b;
      NamesAppend(a[1..], b);
    }
  }

  lemma {:induction false} CallsNames(results: map<nat, int>, ts: seq<nat>)
    ensures Names(Calls(results, ts)) == ts
    ensures (forall t :: t in ts ==> t in results) ==> OwnResults(results, Calls(results, ts))
  {
    if ts != [] {
      CallsNames(results, ts[1..]);
    }
  }

  lemma {:induction false} NamesAt(d: seq<(nat, int)>, i: nat)
    requires i < |d|
    ensures d[i].0 in Names(d)
  {
    if i > 0 {
      NamesAt(d[1..], i - 1);
    }
  }

  // ----- Every step keeps the invariants -----

  lemma AccountedForStep(s: State, step: Step, t: nat)
    requires Accounted(s) && Phased(s) && Enabled(s, step)
    ensures AccountedFor(Apply(s, step), t)
  {
    assert AccountedFor(s, t);
    match step
    case Enter => EnterCount(s, t);
    case Submit(ok) => SubmitCount(s, ok, t);
    case Drop => DropCount(s, t);
    case Answer(x, r) => AnswerCount(s, x, r, t);
    case Hand => CountAppend(s.queue, [s.thread.t], t);
    case Dequeue =>
      if s.queue != [] {
        CountOne(s.queue[0], t);
      }
    case Deliver => DeliverCount(s, s.held, t);
    case Free => DeliverCount(s, s.queue, t);
    case _ =>
  }

  lemma EnterCount(s: State, t: nat)
    requires Accounted(s) && Enabled(s, Enter)
    ensures AccountedFor(Apply(s, Enter), t)
  {
    assert AccountedFor(s, t);
    CountAppend(s.pending, [s.next], t);
  }

  // The request of a call is pending once, and not outstanding.
  lemma CallPending(s: State)
    requires Accounted(s) && !s.call.NoCall?
    ensures s.call.t in s.pending && s.call.t !in s.outstanding
  {
    assert AccountedFor(s, s.call.t);
    CountIn(s.pending, s.call.t);
  }

  lemma SubmitCount(s: State, ok: bool, t: nat)
    requires Accounted(s) && s.call.Entered?
    ensures AccountedFor(Apply(s, Submit(ok)), t)
  {
    assert AccountedFor(s, t);
    if ok {
      CallPending(s);
      SubmitTaken(s, Apply(s, Submit(true)), t);
    }
  }

  lemma SubmitTaken(s: State, s': State, t: nat)
    requires AccountedFor(s, t) && s.call.Entered? && s.call.t !in s.outstanding
    requires s' == s.(outstanding := s.outstanding + {s.call.t}, accepted := s.accepted + [s.call.t], call := NoCall)
    ensures AccountedFor(s', t)
  {
    CountAppend(s.accepted, [s.call.t], t);
    CountOne(s.call.t, t);
  }

  lemma DropCount(s: State, t: nat)
    requires Accounted(s) && s.call.Refused?
    ensures AccountedFor(Apply(s, Drop), t)
  {
    assert AccountedFor(s, t);
    CallPending(s);
    CountWithout(s.pending, s.call.t, t);
    CountAppend(s.dropped, [s.call.t], t);
  }

  lemma OutstandingPending(s: State, x: nat)
    requires Accounted(s) && x in s.outstanding
    ensures x in s.pending
  {
    assert AccountedFor(s, x);
    CountIn(s.pending, x);
  }

  lemma AnswerCount(s: State, x: nat, r: int, t: nat)
    requires Accounted(s) && Enabled(s, Answer(x, r))
    ensures AccountedFor(Apply(s, Answer(x, r)), t)
  {
    assert AccountedFor(s, t);
    OutstandingPending(s, x);
    CountWithout(s.pending, x, t);
    CountOne(x, t);
  }

  lemma DeliverCount(s: State, ts: seq<nat>, t: nat)
    ensures Count(Names(s.delivered + Calls(s.results, ts)), t) == Count(Names(s.delivered), t) + Count(ts, t)
  {
    CallsNames(s.results, ts);
    NamesAppend(s.delivered, Calls(s.results, ts));
    CountAppend(Names(s.delivered), ts, t);
  }

  lemma AccountedStep(s: State, step: Step)
    requires Accounted(s) && Phased(s) && Enabled(s, step)
    ensures Accounted(Apply(s, step))
  {
    forall t: nat {:trigger AccountedFor(Apply(s, step), t)}
      ensures AccountedFor(Apply(s, step), t)
    {
      AccountedForStep(s, step, t);
    }
  }

  // A pending request has not been answered yet.
  lemma PendingUnanswered(s: State, x: nat)
    requires Accounted(s) && x in s.pending
    ensures x !in Names(s.delivered)
  {
    assert AccountedFor(s, x);
    CountIn(s.pending, x);
    CountIn(Names(s.delivered), x);
  }

  lemma DeliverOrdered(results: map<nat, int>, d: seq<(nat, int)>, ts: seq<nat>, rest: seq<nat>, answered: seq<nat>)
    requires Names(d) + ts + rest == answered && (forall t :: t in answered ==> t in results) && OwnResults(results, d)
    ensures Names(d + Calls(results, ts)) + rest == answered && OwnResults(results, d + Calls(results, ts))
  {
    CallsNames(results, ts);
    NamesAppend(d, Calls(results, ts));
    assert forall t :: t in ts ==> t in Names(d) + ts + rest;
  }

  lemma AnswerOrdered(s: State, x: nat, r: int)
    requires Inv(s) && Enabled(s, Answer(x, r))
    ensures Ordered(Apply(s, Answer(x, r)))
  {
    OutstandingPending(s, x);
    PendingUnanswered(s, x);
    forall i | 0 <= i < |s.delivered|
      ensures s.delivered[i].0 != x
    {
      NamesAt(s.delivered, i);
    }
  }

  lemma OrderedStep(s: State, step: Step)
    requires Inv(s) && Enabled(s, step)
    ensures Ordered(Apply(s, step))
  {
    match step
    case Answer(x, r) => AnswerOrdered(s, x, r);
    case Hand => HandOrdered(s);
    case Dequeue => DequeueOrdered(s);
    case Deliver =>
      DeliverOrdered(s.results, s.delivered, s.held, s.queue, s.answered);
      assert Names(s.delivered + Calls(s.results, s.held)) + [] == Names(s.delivered + Calls(s.results, s.held));
    case Free =>
      assert Names(s.delivered) + [] + s.queue == Names(s.delivered) + s.queue + [];
      DeliverOrdered(s.results, s.delivered, s.queue, [], s.answered);
    case _ =>
  }

  lemma HandOrdered(s: State)
    requires Ordered(s) && Enabled(s, Hand)
    ensures Ordered(Apply(s, Hand))
  {
    assert Names(s.delivered) + s.held + (s.queue + [s.thread.t]) == s.answered + [s.thread.t];
  }

  lemma DequeueOrdered(s: State)
    requires Ordered(s) && Enabled(s, Dequeue)
    ensures Ordered(Apply(s, Dequeue))
  {
    assert s.queue != [] ==> Names(s.delivered) + [s.queue[0]] + s.queue[1..] == Names(s.delivered) + [] + s.queue;
  }

  // What a step relies on for its assertions and for the flags.
  lemma StepAsserted(s: State, step: Step)
    requires Inv(s) && Enabled(s, step)
    ensures Asserted(s, step)
  {
    match step
    case Drop => CallPending(s);
    case Answer(x, _) => OutstandingPending(s, x);
    case _ =>
  }

  lemma PhasedStep(s: State, step: Step)
    requires Inv(s) && Enabled(s, step)
    ensures Phased(Apply(s, step)) && Awake(Apply(s, step))
  {
    StepAsserted(s, step);
  }

  lemma InvStep(s: State, step: Step)
    requires Inv(s) && Enabled(s, step)
    ensures Inv(Apply(s, step)) && Asserted(s, step)
  {
    AccountedStep(s, step);
    OrderedStep(s, step);
    PhasedStep(s, step);
    StepAsserted(s, step);
  }

  // ----- Whole runs -----

  function Run(s: State, steps: seq<Step>): Option<State>
    decreases |steps|
  {
    if steps == [] then Some(s)
    else if Enabled(s, steps[0]) then Run(Apply(s, steps[0]), steps[1..])
    else None
  }

  ghost predicate AllAsserted(s: State, steps: seq<Step>)
    decreases |steps|
  {
    steps == [] || (Enabled(s, steps[0]) ==> Asserted(s, steps[0]) && AllAsserted(Apply(s, steps[0]), steps[1..]))
  }

  lemma InitialInv()
    ensures Inv(Initial())
  {
    forall t: nat {:trigger AccountedFor(Initial(), t)}
      ensures AccountedFor(Initial(), t)
    {
    }
  }

  // Under every interleaving the invariants hold and none of these assertions fails.
  lemma {:induction false} RunSafe(s: State, steps: seq<Step>)
    requires Inv(s)
    ensures AllAsserted(s, steps)
    ensures Run(s, steps).Some? ==> Inv(Run(s, steps).value)
    decreases |steps|
  {
    if steps != [] && Enabled(s, steps[0]) {
      InvStep(s, steps[0]);
      RunSafe(Apply(s, steps[0]), steps[1..]);
    }
  }

  lemma {:induction false} CountSum(s: State, t: nat)
    requires Inv(s) && t in s.accepted
    ensures Count(s.accepted, t) == 1 && Count(s.dropped, t) == 0 && Count(InCall(s), t) == 0
  {
    assert AccountedFor(s, t);
    CountIn(s.accepted, t);
  }

  // Every accepted request is in exactly one place, once: pending, held by the
  // worker, queued, held by the loop, or delivered.
  lemma AcceptedOnce(steps: seq<Step>, t: nat)
    requires Run(Initial(), steps).Some?
    ensures var s := Run(Initial(), steps).value;
      t in s.accepted ==>
        Count(s.pending, t) + Count(InThread(s), t) + Count(s.queue, t) + Count(s.held, t) + Count(Names(s.delivered), t) == 1
  {
    InitialInv();
    RunSafe(Initial(), steps);
    var s := Run(Initial(), steps).value;
    if t in s.accepted {
      assert AccountedFor(s, t);
      CountSum(s, t);
    }
  }

  // Once the worker has been freed, the callback of every accepted request has
  // run exactly once, in the order of the responses and with its own result;
  // a request that was not accepted has had none.
  lemma FreedDelivered(steps: seq<Step>, t: nat)
    requires Run(Initial(), steps).Some? && Run(Initial(), steps).value.freed
    ensures var s := Run(Initial(), steps).value;
      && Count(Names(s.delivered), t) == One(t in s.accepted)
      && Names(s.delivered) == s.answered && OwnResults(s.results, s.delivered)
  {
    InitialInv();
    RunSafe(Initial(), steps);
    var s := Run(Initial(), steps).value;
    assert AccountedFor(s, t);
    CountIn(s.accepted, t);
    assert Names(s.delivered) + [] + [] == Names(s.delivered);
    if t in s.accepted {
      CountSum(s, t);
    }
  }

  // The delivered responses are always a prefix of the answered ones.
  lemma DeliveredInOrder(steps: seq<Step>)
    requires Run(Initial(), steps).Some?
    ensures var s := Run(Initial(), steps).value; Names(s.delivered) <= s.answered && OwnResults(s.results, s.delivered)
  {
    InitialInv();
    RunSafe(Initial(), steps);
    var s := Run(Initial(), steps).value;
    assert s.answered == Names(s.delivered) + (s.held + s.queue);
  }

  // A result is an old one, or one that libunbound gave for that request in the run.
  lemma {:induction false} ResultsGiven(s: State, steps: seq<Step>, t: nat)
    requires Run(s, steps).Some? && t in Run(s, steps).value.results
    ensures var r := Run(s, steps).value.results[t]; (t in s.results && s.results[t] == r) || Answer(t, r) in steps
    decreases |steps|
  {
    if steps != [] {
      var a := Apply(s, steps[0]);
      ResultsGiven(a, steps[1..], t);
      var r := Run(a, steps[1..]).value.results[t];
      assert Answer(t, r) in steps[1..] ==> Answer(t, r) in steps;
      ResultStep(s, steps[0], a, t);
    }
  }

  lemma ResultStep(s: State, step: Step, s': State, t: nat)
    requires Enabled(s, step) && s' == Apply(s, step)
    ensures t in s'.results ==> (t in s.results && s'.results[t] == s.results[t]) || step == Answer(t, s'.results[t])
  {
    if !step.Answer? {
      ResultsKept(s, step);
    }
  }

  lemma ResultsKept(s: State, step: Step)
    requires Enabled(s, step) && !step.Answer?
    ensures Apply(s, step).results == s.results
  {
    if step.Submit? || step.Drop? {
      CallKeepsResults(s, step);
    }
  }

  // The two ends of a resolve call.
  lemma CallKeepsResults(s: State, step: Step)
    requires Enabled(s, step) && (step.Submit? || step.Drop?)
    ensures Apply(s, step).results == s.results
  {
  }

  // Every callback gets what libunbound answered to its own request.
  lemma DeliveredAnswers(steps: seq<Step>, i: nat)
    requires Run(Initial(), steps).Some? && i < |Run(Initial(), steps).value.delivered|
    ensures var (t, r) := Run(Initial(), steps).value.delivered[i]; Answer(t, r) in steps
  {
    DeliveredInOrder(steps);
    ResultsGiven(Initial(), steps, Run(Initial(), steps).value.delivered[i].0);
  }

  // Closing cannot get stuck: while the worker is open and no resolve call is
  // in progress, something can still happen until every response is delivered
  // and the worker has stopped, apart from new requests.
  lemma CanProceed(s: State)
    requires Inv(s) && s.exit
    ensures exists step: Step :: Enabled(s, step) && !step.Close? && !step.Enter? && !step.Open?
  {
    match s.thread
    case Waiting => assert Enabled(s, Wait);
    case Polling =>
      if s.outstanding == {} {
        assert Enabled(s, Settle);
      } else {
        var t :| t in s.outstanding;
        assert Enabled(s, Answer(t, 0));
      }
    case Holding(_) => assert Enabled(s, Hand);
    case Announcing => assert Enabled(s, Signal);
    case Leaving => assert Enabled(s, Leave);
    case Gone =>
      if s.held != [] {
        assert Enabled(s, Deliver);
      } else if s.draining {
        assert Enabled(s, Dequeue);
      } else {
        assert Enabled(s, Quit);
      }
  }

  // How far a closing worker is from having stopped.
  function Rank(s: State): nat {
    20 * |s.outstanding| + ThreadRank(s) + 4 * |s.queue| + 3 * |s.held| + One(s.draining) + 2 * One(s.wake)
  }

  function ThreadRank(s: State): nat {
    match s.thread
    case Off => 0
    case Gone => 1
    case Leaving => 2
    case Waiting => if s.pending == [] then 3 else 6
    case Polling => if s.outstanding == {} then 4 else 5
    case Announcing => 8
    case Holding(_) => 13
  }

  lemma PendingOutstanding(s: State)
    requires Inv(s) && s.call.NoCall?
    ensures s.pending == [] <==> s.outstanding == {}
  {
    if s.pending != [] {
      assert AccountedFor(s, s.pending[0]);
      CountIn(s.pending, s.pending[0]);
    }
    if s.outstanding != {} {
      var t :| t in s.outstanding;
      OutstandingPending(s, t);
    }
  }

  // After close every step but another close brings the stop nearer.
  lemma ClosingProgress(s: State, step: Step)
    requires Inv(s) && s.exit && Enabled(s, step) && !step.Close?
    ensures Rank(Apply(s, step)) < Rank(s)
    ensures Apply(s, step).exit || !Apply(s, step).open
  {
    PendingOutstanding(s);
    match step
    case Answer(t, r) => AnswerProgress(s, t, r);
    case Wait => ThreadProgress(s, Apply(s, Wait));
    case Hand => HandProgress(s, Apply(s, Hand));
    case Signal => SignalProgress(s, Apply(s, Signal));
    case Settle => ThreadProgress(s, Apply(s, Settle));
    case Leave => ThreadProgress(s, Apply(s, Leave));
    case Dequeue => LoopProgress(s, Apply(s, Dequeue));
    case Deliver => LoopProgress(s, Apply(s, Deliver));
    case Wake => LoopProgress(s, Apply(s, Wake));
    case Quit => ThreadProgress(s, Apply(s, Quit));
    case _ =>
  }

  // The steps of the worker thread that touch neither list.
  lemma ThreadProgress(s: State, s': State)
    requires s'.outstanding == s.outstanding && s'.queue == s.queue && s'.held == s.held && s'.draining == s.draining && s'.wake == s.wake
    requires ThreadRank(s') < ThreadRank(s)
    ensures Rank(s') < Rank(s)
  {
  }

  lemma HandProgress(s: State, s': State)
    requires s.thread.Holding? && s'.thread.Announcing? && |s'.queue| == |s.queue| + 1
    requires s'.outstanding == s.outstanding && s'.held == s.held && s'.draining == s.draining && s'.wake == s.wake
    ensures Rank(s') < Rank(s)
  {
  }

  lemma SignalProgress(s: State, s': State)
    requires s.thread.Announcing? && s'.thread.Polling? && s'.outstanding == s.outstanding
    requires s'.queue == s.queue && s'.held == s.held && s'.draining == s.draining
    ensures Rank(s') < Rank(s)
  {
  }

  // The steps of the loop.
  lemma LoopProgress(s: State, s': State)
    requires s'.thread == s.thread && s'.outstanding == s.outstanding && s'.pending == s.pending
    requires 4 * |s'.queue| + 3 * |s'.held| + One(s'.draining) + 2 * One(s'.wake) < 4 * |s.queue| + 3 * |s.held| + One(s.draining) + 2 * One(s.wake)
    ensures Rank(s') < Rank(s)
  {
  }

  lemma AnswerProgress(s: State, t: nat, r: int)
    requires Enabled(s, Answer(t, r))
    ensures Rank(Apply(s, Answer(t, r))) < Rank(s)
  {
    assert |s.outstanding - {t}| == |s.outstanding| - 1;
  }

  // The steps of a run other than repeated closes.
  function Moves(steps: seq<Step>): nat {
    if steps == [] then 0 else One(!steps[0].Close?) + Moves(steps[1..])
  }

  // After close the worker has stopped within Rank + 1 such steps, whatever they
  // are and in whatever order.
  lemma {:induction false} StopsSoon(s: State, steps: seq<Step>) returns (n: nat)
    requires Inv(s) && s.exit && Run(s, steps).Some? && Moves(steps) > Rank(s)
    ensures n <= |steps| && Moves(steps[..n]) <= Rank(s) + 1
    ensures Run(s, steps[..n]).Some? && !Run(s, steps[..n]).value.open
    decreases |steps|
  {
    var t := CloseStep(s, steps[0]);
    if t.open {
      n := StopsSoon(t, steps[1..]);
      n := n + 1;
      assert steps[..n][1..] == steps[1..][..n - 1];
    } else {
      n := 1;
      assert steps[..1][1..] == [];
    }
  }

  lemma CloseStep(s: State, step: Step) returns (t: State)
    requires Inv(s) && s.exit && Enabled(s, step)
    ensures t == Apply(s, step) && Inv(t) && (t.open ==> t.exit)
    ensures Rank(t) + One(!step.Close?) <= Rank(s)
  {
    t := Apply(s, step);
    InvStep(s, step);
    if step.Close? {
      assert t == s;
    } else {
      ClosingProgress(s, step);
    }
  }

  // From any reachable open state: a run that starts with a close, and then has more
  // than Rank steps other than closes, has stopped the worker within Rank + 1 of them.
  lemma CloseStops(before: seq<Step>, s: State, steps: seq<Step>) returns (n: nat)
    requires Run(Initial(), before) == Some(s) && s.open
    requires Run(s, [Close] + steps).Some? && Moves(steps) > Rank(s)
    ensures n <= |steps| && Moves(steps[..n]) <= Rank(s) + 1
    ensures Run(s, [Close] + steps[..n]).Some? && !Run(s, [Close] + steps[..n]).value.open
  {
    InitialInv();
    RunSafe(Initial(), before);
    InvStep(s, Close);
    assert ([Close] + steps)[1..] == steps;
    n := StopsSoon(Apply(s, Close), steps);
    assert ([Close] + steps[..n])[1..] == steps[..n];
  }

  // Closed, or about to be, with no resolve call in progress.
  predicate Shut(s: State) {
    s.call.NoCall? && (s.exit || !s.open)
  }

  lemma {:induction false} ShutTakesNone(s: State, steps: seq<Step>)
    requires Shut(s) && Run(s, steps).Some? && Open !in steps
    ensures var t := Run(s, steps).value; Shut(t) && t.accepted == s.accepted && t.next == s.next
    decreases |steps|
  {
    if steps != [] {
      var t := Apply(s, steps[0]);
      assert steps[0] in steps && forall x :: x in steps[1..] ==> x in steps;
      ShutStep(s, steps[0]);
      ShutTakesNone(t, steps[1..]);
    }
  }

  lemma ShutStep(s: State, step: Step)
    requires Shut(s) && Enabled(s, step) && !step.Open?
    ensures var t := Apply(s, step); Shut(t) && t.accepted == s.accepted && t.next == s.next
  {
  }

  // After a close no request is made or accepted until the worker is opened again.
  lemma CloseTakesNone(s: State, steps: seq<Step>)
    requires Run(s, [Close] + steps).Some? && Open !in steps
    ensures var t := Run(s, [Close] + steps).value; t.accepted == s.accepted && t.next == s.next
  {
    assert ([Close] + steps)[1..] == steps;
    ShutTakesNone(Apply(s, Close), steps);
  }

  // ----- Responses get through -----

  // The steps of the loop that hand out the first n responses queued.
  function HandOut(n: nat): seq<Step> {
    if n == 0 then [Dequeue] else [Dequeue, Deliver] + HandOut(n - 1)
  }

  // The loop is handing out responses and is between two of them.
  predicate Draining(s: State) {
    s.draining && s.held == [] && s.call.NoCall?
  }

  lemma HandOutOne(s: State) returns (t: State)
    requires Inv(s) && Draining(s) && s.queue != []
    ensures Enabled(s, Dequeue) && Enabled(Apply(s, Dequeue), Deliver) && t == Apply(Apply(s, Dequeue), Deliver)
    ensures Inv(t) && Draining(t) && t.queue == s.queue[1..] && t.answered == s.answered
  {
    var a := Apply(s, Dequeue);
    InvStep(s, Dequeue);
    InvStep(a, Deliver);
    t := Apply(a, Deliver);
  }

  lemma NoneLeft(s: State)
    requires Inv(s) && Draining(s) && s.queue == []
    ensures var t := Apply(s, Dequeue); Inv(t) && t.queue == [] && Idle(t) && Names(t.delivered) == t.answered == s.answered
  {
    InvStep(s, Dequeue);
    assert Names(s.delivered) + [] + [] == Names(s.delivered);
  }

  lemma {:induction false} HandOutAll(s: State)
    requires Inv(s) && Draining(s)
    ensures Run(s, HandOut(|s.queue|)).Some?
    ensures var t := Run(s, HandOut(|s.queue|)).value; Inv(t) && t.queue == [] && Idle(t) && Names(t.delivered) == t.answered == s.answered
    decreases |s.queue|
  {
    var steps := HandOut(|s.queue|);
    if s.queue == [] {
      NoneLeft(s);
      assert steps[1..] == [];
    } else {
      var t := HandOutOne(s);
      HandOutAll(t);
      TwoSteps(s, steps, HandOut(|t.queue|));
    }
  }

  lemma TwoSteps(s: State, steps: seq<Step>, rest: seq<Step>)
    requires |steps| >= 2 && steps == [steps[0], steps[1]] + rest
    requires Enabled(s, steps[0]) && Enabled(Apply(s, steps[0]), steps[1])
    ensures Run(s, steps) == Run(Apply(Apply(s, steps[0]), steps[1]), rest)
  {
    assert steps[1..][1..] == rest && steps[1..][0] == steps[1];
  }

  // Whenever the loop is idle and the worker thread is not about to signal it, the
  // loop's own steps deliver every response that has been queued.
  lemma ResponsesArrive(s: State) returns (steps: seq<Step>)
    requires Inv(s) && Idle(s) && !s.thread.Announcing?
    ensures Run(s, steps).Some? && forall x :: x in steps ==> x.Wake? || x.Dequeue? || x.Deliver?
    ensures var t := Run(s, steps).value; t.queue == [] && Names(t.delivered) == t.answered == s.answered
  {
    if s.queue == [] {
      steps := [];
      assert Names(s.delivered) + [] + [] == Names(s.delivered);
    } else {
      InvStep(s, Wake);
      var t := Apply(s, Wake);
      HandOutAll(t);
      steps := [Wake] + HandOut(|t.queue|);
      assert steps[1..] == HandOut(|t.queue|);
      HandOutSteps(|t.queue|);
    }
  }

  lemma {:induction false} HandOutSteps(n: nat)
    ensures forall x :: x in HandOut(n) ==> x.Dequeue? || x.Deliver?
  {
    if n > 0 {
      HandOutSteps(n - 1);
    }
  }

  // ----- A whole life -----

  lemma FirstStep(s: State, step: Step, rest: seq<Step>)
    requires Enabled(s, step)
    ensures Run(s, [step] + rest) == Run(Apply(s, step), rest)
  {
    assert ([step] + rest)[1..] == rest;
  }

  lemma {:induction false} RunAppend(s: State, a: seq<Step>, b: seq<Step>)
    requires Run(s, a).Some?
    ensures Run(s, a + b) == Run(Run(s, a).value, b)
    decreases |a|
  {
    if a == [] {
      assert [] + b == b;
    } else {
      RunAppend(Apply(s, a[0]), a[1..], b);
      assert (a + b)[1..] == a[1..] + b;
    }
  }

  // Any worker that is open and waiting for work answers a request: one that is made,
  // sent and answered is accepted, and its callback runs with that answer.
  lemma RequestAnswered(s: State, result: int) returns (steps: seq<Step>)
    requires Inv(s) && Idle(s) && s.open && !s.exit && s.thread.Waiting? && s.pending == [] && s.queue == [] && !s.wake
    ensures Run(s, steps).Some?
    ensures var t := Run(s, steps).value;
      t.accepted == s.accepted + [s.next] && t.delivered == s.delivered + [(s.next, result)]
      && Inv(t) && Idle(t) && t.open && !t.exit && t.thread.Waiting? && t.pending == [] && t.queue == [] && !t.wake
  {
    var x := s.next;
    assert AccountedFor(s, x);
    CountIn(s.accepted, x);
    PendingOutstanding(s);
    var sent := Sent(s);
    var given := Given(s, sent, x, result);
    HandedOut(s, given, x, result);
    RunAppend(s, [Enter, Submit(true), Wait], [Answer(x, result), Hand, Signal, Settle]);
    RunAppend(s, [Enter, Submit(true), Wait] + [Answer(x, result), Hand, Signal, Settle], [Wake, Dequeue, Deliver, Dequeue]);
    steps := [Enter, Submit(true), Wait] + [Answer(x, result), Hand, Signal, Settle] + [Wake, Dequeue, Deliver, Dequeue];
    RunSafe(s, steps);
  }

  // The request is sent, and waited for.
  lemma Sent(s: State) returns (t: State)
    requires Idle(s) && s.open && !s.exit && s.thread.Waiting? && s.pending == [] && s.outstanding == {}
    ensures Run(s, [Enter, Submit(true), Wait]) == Some(t)
    ensures t == s.(pending := [s.next], next := s.next + 1, outstanding := {s.next}, accepted := s.accepted + [s.next], thread := Polling)
  {
    var a := Apply(s, Enter);
    var b := Apply(a, Submit(true));
    t := Apply(b, Wait);
    FirstStep(s, Enter, [Submit(true), Wait]);
    FirstStep(a, Submit(true), [Wait]);
    FirstStep(b, Wait, []);
    assert [Enter] + [Submit(true), Wait] == [Enter, Submit(true), Wait];
    assert [Submit(true)] + [Wait] == [Submit(true), Wait] && [Wait] + [] == [Wait];
  }

  // It is answered, and the answer is queued.
  lemma Given(s: State, sent: State, x: nat, result: int) returns (t: State)
    requires s.queue == [] && sent == s.(pending := [x], next := x + 1, outstanding := {x}, accepted := s.accepted + [x], thread := Polling)
    ensures Run(sent, [Answer(x, result), Hand, Signal, Settle]) == Some(t)
    ensures t == s.(pending := [], next := x + 1, accepted := s.accepted + [x], outstanding := {}, thread := Waiting,
                    results := s.results[x := result], queue := [x], answered := s.answered + [x], wake := true)
  {
    var a := Apply(sent, Answer(x, result));
    assert Without([x], x) == [] && {x} - {x} == {};
    var b := Apply(a, Hand);
    var c := Apply(b, Signal);
    t := Apply(c, Settle);
    FirstStep(sent, Answer(x, result), [Hand, Signal, Settle]);
    FirstStep(a, Hand, [Signal, Settle]);
    FirstStep(b, Signal, [Settle]);
    FirstStep(c, Settle, []);
    assert [Answer(x, result)] + [Hand, Signal, Settle] == [Answer(x, result), Hand, Signal, Settle];
    assert [Hand] + [Signal, Settle] == [Hand, Signal, Settle];
    assert [Signal] + [Settle] == [Signal, Settle] && [Settle] + [] == [Settle];
  }

  // The loop hands it out.
  lemma HandedOut(s: State, given: State, x: nat, result: int)
    requires Idle(s) && !s.freed && !s.wake && s.queue == []
    requires given == s.(pending := [], next := x + 1, accepted := s.accepted + [x], outstanding := {}, thread := Waiting,
                         results := s.results[x := result], queue := [x], answered := s.answered + [x], wake := true)
    ensures var steps := [Wake, Dequeue, Deliver, Dequeue];
      Run(given, steps) == Some(given.(queue := [], wake := false, delivered := s.delivered + [(x, result)]))
  {
    var a := Apply(given, Wake);
    var b := Apply(a, Dequeue);
    var c := Apply(b, Deliver);
    assert Calls(b.results, [x]) == [(x, result)] by {
      assert [x][1..] == [];
    }
    FirstStep(given, Wake, [Dequeue, Deliver, Dequeue]);
    FirstStep(a, Dequeue, [Deliver, Dequeue]);
    FirstStep(b, Deliver, [Dequeue]);
    FirstStep(c, Dequeue, []);
    assert [Wake] + [Dequeue, Deliver, Dequeue] == [Wake, Dequeue, Deliver, Dequeue];
    assert [Dequeue] + [Deliver, Dequeue] == [Dequeue, Deliver, Dequeue];
    assert [Deliver] + [Dequeue] == [Deliver, Dequeue] && [Dequeue] + [] == [Dequeue];
  }

  // A worker can be opened from the start, and is then waiting for work.
  lemma FirstOpen()
    ensures Run(Initial(), [Open]).Some?
    ensures var t := Run(Initial(), [Open]).value;
      Inv(t) && Idle(t) && t.open && !t.exit && t.thread.Waiting? && t.pending == [] && t.queue == [] && !t.wake
  {
    InitialInv();
    InvStep(Initial(), Open);
    FirstStep(Initial(), Open, []);
    assert [Open] + [] == [Open];
  }
}
