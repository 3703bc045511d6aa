// The two linked lists under the steps of the worker: every request has its own
// response object, and the objects of the pending list and of the response queue
// are those of the pending and the queued requests.
module WorkerLists {
  import opened Bytes
  import opened RspList
  import opened Worker

  // The response object of each request made so far.
  type Nodes = map<nat, Rsp>

  ghost predicate Injective(nodes: Nodes) {
    forall t, u :: t in nodes && u in nodes && t != u ==> nodes[t] != nodes[u]
  }

  ghost predicate NodesFor(nodes: Nodes, ids: seq<nat>, rsps: seq<Rsp>) {
    |ids| == |rsps| && forall i :: 0 <= i < |ids| ==> ids[i] in nodes && rsps[i] == nodes[ids[i]]
  }

  lemma NodeIn(nodes: Nodes, ids: seq<nat>, rsps: seq<Rsp>, t: nat)
    requires Injective(nodes) && NodesFor(nodes, ids, rsps) && t in nodes
    ensures nodes[t] in rsps <==> t in ids
  {
    if t in ids {
      var i :| 0 <= i < |ids| && ids[i] == t;
      assert rsps[i] == nodes[t];
    }
  }

  lemma {:induction false} NodesWithout(nodes: Nodes, ids: seq<nat>, rsps: seq<Rsp>, t: nat)
    requires Injective(nodes) && NodesFor(nodes, ids, rsps) && t in ids && t in nodes
    ensures NodesFor(nodes, Without(ids, t), Without(rsps, nodes[t]))
  {
    if ids[0] != t {
      NodesWithout(nodes, ids[1..], rsps[1..], t);
    }
  }

  // Where a request is not.
  lemma OnePlace(s: State, t: nat)
    requires Accounted(s)
    ensures t in s.pending || t in s.queue ==> t < s.next && t !in InThread(s)
    ensures t in s.pending ==> t !in s.queue
  {
    assert AccountedFor(s, t);
    CountIn(s.pending, t);
    CountIn(s.queue, t);
    CountIn(InThread(s), t);
  }

  // Different requests in the two lists: different objects.
  ghost predicate Apart(a: seq<Rsp>, b: seq<Rsp>) {
    forall x :: x in a ==> x !in b
  }

  lemma ListsApart(s: State, nodes: Nodes, pending: seq<Rsp>, queue: seq<Rsp>)
    requires Accounted(s) && Injective(nodes)
    requires NodesFor(nodes, s.pending, pending) && NodesFor(nodes, s.queue, queue)
    ensures Apart(pending, queue)
    ensures s.thread.Holding? && s.thread.t in nodes ==> nodes[s.thread.t] !in pending && nodes[s.thread.t] !in queue
  {
    forall i | 0 <= i < |pending|
      ensures pending[i] !in queue
    {
      OnePlace(s, s.pending[i]);
      NodeIn(nodes, s.queue, queue, s.pending[i]);
    }
    if s.thread.Holding? && s.thread.t in nodes {
      OnePlace(s, s.thread.t);
      NodeIn(nodes, s.pending, pending, s.thread.t);
      NodeIn(nodes, s.queue, queue, s.thread.t);
    }
  }

  // A new object for the next request.
  lemma NodesEnter(s: State, nodes: Nodes, rsp: Rsp, more: Nodes, pending: seq<Rsp>, queue: seq<Rsp>)
    requires Injective(nodes) && (forall t: nat :: t in nodes <==> t < s.next) && rsp !in nodes.Values
    requires NodesFor(nodes, s.pending, pending) && NodesFor(nodes, s.queue, queue) && more == nodes[s.next := rsp]
    ensures Injective(more) && forall t: nat :: t in more <==> t < s.next + 1
    ensures NodesFor(more, s.pending + [s.next], pending + [rsp]) && NodesFor(more, s.queue, queue)
    ensures rsp !in pending && rsp !in queue
  {
  }

  // The steps that leave both lists alone.
  predicate Elsewhere(step: Step) {
    match step
    case Enter | Drop | Answer(_, _) | Hand | Dequeue | Wait | Quit | Free => false
    case _ => true
  }

  lemma ElsewhereKeeps(s: State, step: Step)
    requires Enabled(s, step) && Elsewhere(step)
    ensures var t := Apply(s, step);
      && t.pending == s.pending && t.queue == s.queue && t.next == s.next && t.freed == s.freed
      && (t.thread.Holding? ==> t.thread == s.thread)
  {
    match step
    case Open =>
    case Submit(_) =>
    case Close =>
    case Signal =>
    case Settle =>
    case Leave =>
    case Wake =>
    case Deliver =>
  }

  // A list none of whose objects change stays linked.
  twostate lemma StaysLinked(l: List)
    requires old(l.Linked()) && unchanged(l) && forall x :: x in old(l.contents) ==> unchanged(x)
    ensures l.Linked()
  {
    forall i
      ensures NodeAt(l.contents, i)
    {
      assert old(NodeAt(l.contents, i));
      if 0 <= i < |l.contents| {
        assert l.contents[i] in old(l.contents);
      }
    }
  }

  class Shared {
    const pending: List
    const queue: List
    var state: State
    var nodes: Nodes

    // The response in the worker thread's hands is in no list and has no links.
    ghost predicate Loose()
      reads this, nodes.Values
    {
      state.thread.Holding? ==> state.thread.t in nodes && nodes[state.thread.t].prev == null && nodes[state.thread.t].next == null
    }

    ghost predicate Valid()
      reads this, pending, queue, pending.contents, queue.contents, nodes.Values
    {
      && Inv(state) && pending != queue
      && Injective(nodes) && (forall t: nat :: t in nodes <==> t < state.next)
      && (!state.freed ==>
            && pending.Linked() && queue.Linked() && Loose()
            && NodesFor(nodes, state.pending, pending.contents) && NodesFor(nodes, state.queue, queue.contents)
            && Apart(pending.contents, queue.contents))
    }

    constructor ()
      ensures Valid() && state == Initial() && fresh(pending) && fresh(queue) && fresh(nodes.Values)
      ensures fresh(pending.contents) && fresh(queue.contents)
    {
      pending := new List();
      queue := new List();
      state, nodes := Initial(), map[];
      InitialInv();
    }

    // A new response object enters the pending list.
    method Enter()
      requires Valid() && Enabled(state, Step.Enter)
      modifies this, pending, pending.contents
      ensures Valid() && state == Apply(old(state), Step.Enter)
      ensures fresh(nodes.Values - old(nodes.Values))
    {
      InvStep(state, Step.Enter);
      var rsp := new Rsp();
      assert rsp !in nodes.Values;
      NodesEnter(state, nodes, rsp, nodes[state.next := rsp], pending.contents, queue.contents);
      nodes := nodes[state.next := rsp];
      pending.Enqueue(rsp);
      StaysLinked(queue);
      state := Apply(state, Step.Enter);
      ListsApart(state, nodes, pending.contents, queue.contents);
    }

    // A response leaves the pending list: it could not be sent, or it is answered.
    method Leave(t: nat, step: Step)
      requires Valid() && Enabled(state, step)
      requires (step.Drop? && t == state.call.t) || (step.Answer? && t == step.t)
      modifies this, pending, pending.contents
      ensures Valid() && state == Apply(old(state), step) && nodes == old(nodes)
    {
      InvStep(state, step);
      OnePlace(state, t);
      NodeIn(nodes, state.pending, pending.contents, t);
      NodesWithout(nodes, state.pending, pending.contents, t);
      ListsApart(state, nodes, pending.contents, queue.contents);
      pending.Remove(nodes[t]);
      StaysLinked(queue);
      state := Apply(state, step);
      ListsApart(state, nodes, pending.contents, queue.contents);
    }

    // The worker thread queues the response it holds.
    method Hand()
      requires Valid() && Enabled(state, Step.Hand)
      modifies this, queue, queue.contents, nodes.Values
      ensures Valid() && state == Apply(old(state), Step.Hand) && nodes == old(nodes)
    {
      InvStep(state, Step.Hand);
      var rsp := nodes[state.thread.t];
      ListsApart(state, nodes, pending.contents, queue.contents);
      queue.Enqueue(rsp);
      StaysLinked(pending);
      state := Apply(state, Step.Hand);
      ListsApart(state, nodes, pending.contents, queue.contents);
    }

    // The loop takes the oldest response, if there is one.
    method Dequeue() returns (rsp: Rsp?)
      requires Valid() && Enabled(state, Step.Dequeue)
      modifies this, queue, queue.contents
      ensures Valid() && state == Apply(old(state), Step.Dequeue) && nodes == old(nodes)
      ensures rsp != null <==> state.held != []
      ensures rsp != null ==> state.held[0] in nodes && rsp == nodes[state.held[0]]
    {
      InvStep(state, Step.Dequeue);
      ListsApart(state, nodes, pending.contents, queue.contents);
      rsp := queue.Dequeue();
      StaysLinked(pending);
      state := Apply(state, Step.Dequeue);
      ListsApart(state, nodes, pending.contents, queue.contents);
    }

    // hsk_rs_pending_wait: whether there is something to wait for.
    method Wait() returns (more: bool)
      requires Valid() && Enabled(state, Step.Wait)
      modifies this`state
      ensures Valid() && state == Apply(old(state), Step.Wait)
      ensures more == (old(state).pending != [])
    {
      InvStep(state, Step.Wait);
      more := pending.head != null;
      state := Apply(state, Step.Wait);
    }

    // hsk_rs_pending_reset, after the worker thread has ended.
    method Quit()
      requires Valid() && Enabled(state, Step.Quit)
      modifies this`state
      ensures Valid() && state == Apply(old(state), Step.Quit)
    {
      InvStep(state, Step.Quit);
      assert pending.head == null;
      assert pending.tail == null;
      state := Apply(state, Step.Quit);
    }

    // The destructors: the pending list must be empty, and the responses left in
    // the queue are called, oldest first.
    method Free() returns (called: seq<Rsp>)
      requires Valid() && Enabled(state, Step.Free)
      modifies this`state
      ensures Valid() && state == Apply(old(state), Step.Free)
      ensures NodesFor(nodes, old(state).queue, called)
    {
      InvStep(state, Step.Free);
      assert pending.head == null;
      called := queue.Drain();
      state := Apply(state, Step.Free);
    }

    method Other(step: Step)
      requires Valid() && Enabled(state, step) && Elsewhere(step)
      modifies this`state
      ensures Valid() && state == Apply(old(state), step)
    {
      InvStep(state, step);
      ElsewhereKeeps(state, step);
      state := Apply(state, step);
    }

    lemma Owned()
      requires Valid() && !state.freed
      ensures forall x :: x in pending.contents || x in queue.contents ==> x in nodes.Values
    {
    }

    // Any step.  The lists stay linked and apart and hold the right objects, and
    // every assertion of the list operations holds on the way.
    method Take(step: Step)
      requires Valid() && Enabled(state, step)
      modifies this, pending, queue, pending.contents, queue.contents, nodes.Values
      ensures Valid() && state == Apply(old(state), step)
      ensures fresh(nodes.Values - old(nodes.Values))
      ensures state.freed ==> pending.contents == old(pending.contents) && queue.contents == old(queue.contents)
    {
      match step
      case Enter => Enter();
      case Drop => Leave(state.call.t, step);
      case Answer(t, _) => Leave(t, step);
      case Hand => Hand();
      case Dequeue => var rsp := Dequeue();
      case Wait => var more := Wait();
      case Quit => Quit();
      case Free => var called := Free();
      case _ => Other(step);
    }
  }

  lemma {:induction false} RunLonger(s: State, steps: seq<Step>, n: nat)
    requires n < |steps| && Run(s, steps).Some?
    ensures Run(s, steps[..n]).Some? && Enabled(Run(s, steps[..n]).value, steps[n])
    ensures Run(s, steps[..n + 1]) == Some(Apply(Run(s, steps[..n]).value, steps[n]))
    decreases n
  {
    if n > 0 {
      var t := Apply(s, steps[0]);
      RunLonger(t, steps[1..], n - 1);
      assert steps[..n][1..] == steps[1..][..n - 1] && steps[..n + 1][1..] == steps[1..][..n];
    } else {
      assert steps[..1][1..] == [];
    }
  }

  // Under every interleaving both lists stay linked and apart, and hold exactly
  // the objects of the pending and the queued requests.
  method RunLists(steps: seq<Step>) returns (worker: Shared)
    requires Run(Initial(), steps).Some?
    ensures fresh(worker) && worker.Valid() && worker.state == Run(Initial(), steps).value
  {
    worker := new Shared();
    for i := 0 to |steps|
      invariant fresh(worker) && fresh(worker.pending) && fresh(worker.queue) && fresh(worker.nodes.Values)
      invariant fresh(worker.pending.contents) && fresh(worker.queue.contents)
      invariant worker.Valid() && Run(Initial(), steps[..i]) == Some(worker.state)
    {
      TakeNext(worker, steps, i);
    }
    assert steps[..|steps|] == steps;
  }

  method TakeNext(worker: Shared, steps: seq<Step>, i: nat)
    requires i < |steps| && Run(Initial(), steps).Some? && worker.Valid() && Run(Initial(), steps[..i]) == Some(worker.state)
    modifies worker, worker.pending, worker.queue, worker.pending.contents, worker.queue.contents, worker.nodes.Values
    ensures worker.Valid() && Run(Initial(), steps[..i + 1]) == Some(worker.state)
    ensures fresh(worker.nodes.Values - old(worker.nodes.Values))
    ensures forall x :: x in worker.pending.contents ==> x in worker.nodes.Values || x in old(worker.pending.contents)
    ensures forall x :: x in worker.queue.contents ==> x in worker.nodes.Values || x in old(worker.queue.contents)
  {
    RunLonger(Initial(), steps, i);
    worker.Take(steps[i]);
    if !worker.state.freed {
      worker.Owned();
    }
  }
}
