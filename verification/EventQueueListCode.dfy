/**
 The routines of source/kernel/vsf_evtq_list.c as they update the kernel in place, proved against the steps of
 `EventQueueList`.
 */
module EventQueueListCode {
  import opened Basics
  import opened EventQueueList
  import opened EventQueueListRuns
  import RoundRobin

  class Scheduler {
    var eda: seq<Eda>
    var ready: seq<seq<nat>>
    var cur: seq<Option<nat>>
    var pool: multiset<nat>
    var flight: multiset<nat>

    function State(): Kernel
      reads this
    {
      Kernel(eda, ready, cur, pool, flight)
    }

    ghost predicate Valid()
      reads this
    {
      Inv(State())
    }

    /** After boot: `queues` priorities, one task per entry of `prios`. */
    constructor (queues: nat, prios: seq<nat>, nodes: set<nat>)
      requires forall t :: 0 <= t < |prios| ==> prios[t] < queues
      ensures Valid() && Boot(State(), nodes)
      ensures |eda| == |prios| && |ready| == queues
    {
      eda := seq(|prios|, t requires 0 <= t < |prios| => Eda([], false, prios[t], 0, false, false, false));
      ready := seq(queues, _ => []);
      cur := seq(queues, _ => None);
      pool := multiset(nodes);
      flight := multiset{};
    }

    /** __vsf_eda_update_priotiry */
    method MovePriority(t: nat, p: nat)
      requires Shape(State()) && t < |eda| && p < |ready|
      modifies this
      ensures State() == UpdatePriority(old(State()), t, p)
    {
      if eda[t].isReady {
        var from := eda[t].curPrio;
        ready := ready[from := Remove(ready[from], t)];
        ready := ready[p := ready[p] + [t]];
      }
      eda := eda[t := eda[t].(curPrio := p)];
    }

    /** __vsf_eda_set_priority */
    method ChangePriority(t: nat, p: nat)
      requires Valid() && t < |eda| && p < |ready|
      modifies this
      ensures Valid() && State() == Apply(old(State()), SetPriority(t, p))
    {
      RequestInv(State(), t, p);
      if eda[t].curPrio != p {
        var running := cur[eda[t].curPrio] == Some(t);
        if !running && !eda[t].isNewPrio {
          MovePriority(t, p);
        } else {
          DeferPriority(t, p);
        }
      }
    }

    /** __vsf_eda_set_priority for a running task. */
    method DeferPriority(t: nat, p: nat)
      requires t < |eda|
      modifies this`eda
      ensures eda == old(eda)[t := old(eda)[t].(isNewPrio := true, newPrio := p)]
    {
      eda := eda[t := eda[t].(isNewPrio := true)];
      eda := eda[t := eda[t].(newPrio := p)];
    }

    /** The protected region of vsf_evtq_on_eda_fini; the events it leaves behind are the loop's to free. */
    method Detach(t: nat) returns (nodes: seq<Node>)
      requires Shape(State()) && t < |eda|
      modifies this
      ensures State() == Finish(old(State()), t) && nodes == ExitNodes(old(State()), t)
    {
      var p := eda[t].curPrio;
      if cur[p] == Some(t) {
        eda := eda[t := eda[t].(isToExit := true)];
        return [];
      }
      if eda[t].isReady {
        ready := ready[p := Remove(ready[p], t)];
        eda := eda[t := eda[t].(isReady := false)];
      }
      nodes := eda[t].evts;
      flight := flight + NodeIds(nodes);
      eda := eda[t := eda[t].(evts := [])];
    }

    /** The loop of vsf_evtq_on_eda_fini: every event is dequeued and freed. */
    method FreeEvents(nodes: seq<Node>)
      requires NodeIds(nodes) <= flight
      modifies this`pool, this`flight
      ensures State() == FreeAll(old(State()), nodes)
    {
      ghost var s := State();
      var left := nodes;
      while left != []
        invariant Freeing(s, nodes, State(), left)
        decreases |left|
      {
        FreeingStep(s, nodes, State(), left);
        FreeNode(left[0].id);
        left := left[1..];
      }
      FreeingStep(s, nodes, State(), left);
    }

    /** __vsf_os_free_evt_node */
    method FreeNode(id: nat)
      modifies this`pool, this`flight
      ensures State() == FreeOne(old(State()), id)
    {
      pool, flight := pool + multiset{id}, flight - multiset{id};
    }

    /** vsf_evtq_on_eda_fini */
    method OnEdaFini(t: nat)
      requires Valid() && t < |eda|
      modifies this
      ensures Valid() && State() == Exited(old(State()), t)
    {
      ExitedInv(State(), t);
      FinishInv(State(), t);
      var nodes := Detach(t);
      FreeEvents(nodes);
    }

    /** The protected region of __vsf_evtq_post: queue the node, or leave it to be freed. */
    method EnqueueNode(t: nat, id: nat, evt: int, force: bool) returns (accepted: bool)
      requires Shape(State()) && t < |eda| && id in flight
      modifies this
      ensures State() == Enqueue(old(State()), t, id, evt, force)
      ensures accepted <==> !(old(eda[t].isLimited) && old(eda[t].isReady) && !force)
      ensures accepted ==> eda[t].isReady && eda[t].evts == old(eda[t].evts) + [Node(id, evt)]
    {
      if eda[t].isLimited && eda[t].isReady && !force {
        return false;
      }
      flight := flight - multiset{id};
      eda := eda[t := eda[t].(evts := eda[t].evts + [Node(id, evt)])];
      if !eda[t].isReady {
        eda := eda[t := eda[t].(isReady := true)];
        ready := ready[eda[t].curPrio := ready[eda[t].curPrio] + [t]];
      }
      return true;
    }

    /** __vsf_evtq_post: allocate a node, then enqueue it, or free it again when the post is refused. */
    method PostEvent(t: nat, evt: int, force: bool) returns (err: Err, ghost id: nat)
      requires Valid() && t < |eda|
      modifies this
      ensures Valid()
      ensures old(pool) == multiset{} <==> err == NotEnoughResources
      ensures err == Fail <==> old(pool) != multiset{} && old(eda[t].isLimited) && old(eda[t].isReady) && !force
      ensures err != Ok ==> State() == old(State())
      ensures err == Ok ==> id in old(pool)
      ensures err == Ok ==> State() == Enqueue(Apply(old(State()), Alloc(id)), t, id, evt, force)
      ensures err == Ok ==> eda[t].isReady && eda[t].evts == old(eda[t].evts) + [Node(id, evt)]
      ensures err == Ok ==> pool == old(pool) - multiset{id} && flight == old(flight)
    {
      id := 0;
      if pool == multiset{} {
        return NotEnoughResources, id;
      }
      var node :| node in pool;
      id := node;
      StepInv(State(), Alloc(node));
      TakeBack(pool, flight, node);
      pool, flight := pool - multiset{node}, flight + multiset{node};
      EnqueueInv(State(), t, node, evt, force);
      var accepted := EnqueueNode(t, node, evt, force);
      if !accepted {
        pool, flight := pool + multiset{node}, flight - multiset{node};
      }
      err := if accepted then Ok else Fail;
    }

    /** Any other step another context or a handler may take. */
    method Perform(step: Step)
      requires Valid() && Enabled(State(), step)
      modifies this
      ensures Valid() && State() == Apply(old(State()), step)
    {
      StepInv(State(), step);
      ghost var start := State();
      match step
      case SetPriority(t, p) => ChangePriority(t, p);
      case Fini(t) => var _ := Detach(t);
      case Post(t, id, evt, force) => var _ := EnqueueNode(t, id, evt, force);
      case PollBegin(q) => BeginPoll(q, ready[q][0]);
      case PollEnd(q) => var _ := EndPoll(q);
      case _ =>
        var r := Apply(State(), step);
        eda, ready, cur, pool, flight := r.eda, r.ready, r.cur, r.pool, r.flight;
    }

    /** Poll, first protected region: node_eda becomes the running task and its oldest event is dequeued. */
    method BeginPoll(q: nat, node: nat)
      requires Valid() && Enabled(State(), PollBegin(q)) && node == ready[q][0]
      modifies this
      ensures Valid() && State() == Apply(old(State()), PollBegin(q))
    {
      BeginInv(State(), q);
      assert node in ready[q];
      cur := cur[q := Some(node)];
      flight := flight + multiset{eda[node].evts[0].id};
      eda := eda[node := eda[node].(evts := eda[node].evts[1..])];
    }

    /** Poll after the handler: take the task off the list, and put it back at the tail if it has events left. */
    method Retire(q: nat, t: nat)
      requires Shape(State()) && q < |ready| && t < |eda| && eda[t].isReady
      modifies this
      ensures State() == Requeue(old(State()), q, t)
    {
      ready := ready[q := Remove(ready[q], t)];
      if eda[t].evts == [] {
        eda := eda[t := eda[t].(isReady := false)];
      } else {
        ready := ready[q := ready[q] + [t]];
      }
      cur := cur[q := None];
    }

    /** Poll, deferred priority. */
    method TakeDeferred(t: nat)
      requires Shape(State()) && t < |eda| && (eda[t].isNewPrio ==> eda[t].newPrio < |ready|)
      modifies this
      ensures State() == TakeNewPriority(old(State()), t)
    {
      if eda[t].isNewPrio {
        eda := eda[t := eda[t].(isNewPrio := false)];
        MovePriority(t, eda[t].newPrio);
      }
    }

    /** Poll, second protected region; returns the successor that poll goes on with. */
    method EndPoll(q: nat) returns (next: Option<nat>)
      requires Valid() && Enabled(State(), PollEnd(q))
      modifies this
      ensures Valid() && State() == Apply(old(State()), PollEnd(q))
      ensures next == (if |old(ready[q])| > 1 then Some(old(ready[q][1])) else None)
      ensures next.Some? ==> ready[q] != [] && ready[q][0] == next.value
    {
      EndInv(State(), q);
      RoundRobin.EndAdvances(State(), q, q);
      RequeueInv(State(), q);
      var t := cur[q].value;
      assert t in ready[q];
      next := if |ready[q]| > 1 then Some(ready[q][1]) else None;
      assert next.Some? ==> ready[q][1..][0] == next.value;
      Retire(q, t);
      TakeDeferred(t);
    }

    /** Poll from the end of the handler on: the second protected region, then the exit if it was asked for. */
    method EndAndExit(q: nat) returns (next: Option<nat>)
      requires Valid() && Enabled(State(), PollEnd(q))
      modifies this
      ensures Valid() && q < |ready| && State() == Settled(old(State()), q)
      ensures next.Some? ==> ready[q] != [] && ready[q][0] == next.value
    {
      var t := cur[q].value;
      RequeueInv(State(), q);
      assert |ready[q]| > 1 ==> ready[q][1] != t;
      next := EndPoll(q);
      if eda[t].isToExit {
        if next.Some? {
          assert ready[q][..1] == [next.value];
          RoundRobin.FinishFront(State(), t, q, 0);
        }
        OnEdaFini(t);
      }
    }

    /** One pass of the inner loop of poll: begin, free the node, whatever happens meanwhile, end. */
    method Dispatch(q: nat, node: nat, actions: seq<Step>) returns (next: Option<nat>)
      requires Valid() && Enabled(State(), PollBegin(q)) && node == ready[q][0]
      modifies this
      ensures Valid() && q < |ready| && State() == Dispatched(old(State()), q, actions)
      ensures next.Some? ==> ready[q] != [] && ready[q][0] == next.value
    {
      assert node in ready[q];
      var id := eda[node].evts[0].id;
      BeginPoll(q, node);
      Perform(EventQueueList.Free(id));
      PerformAll(actions, q);
      next := EndAndExit(q);
    }

    /** What the handler and everything that preempts it does. */
    method PerformAll(actions: seq<Step>, q: nat)
      requires Valid()
      modifies this
      ensures Valid() && State() == DoAll(old(State()), actions, q)
    {
      for i := 0 to |actions|
        invariant Valid() && State() == DoAll(old(State()), actions[..i], q)
      {
        assert actions[..i + 1][..i] == actions[..i];
        if actions[i] != PollEnd(q) && Enabled(State(), actions[i]) {
          Perform(actions[i]);
        }
      }
      assert actions[..|actions|] == actions;
    }

    /**
     vsf_evtq_poll. Each entry of `script` is what happens during one dispatch: the steps of the handler and of
     everything that preempts it. The inner loop goes on with the successor cached before the task was requeued;
     that successor is always the head of the ready list, so every dispatch of the call is a `PollBegin`, and the
     call ends with an empty ready list unless the script ends first.
     */
    method Poll(q: nat, script: seq<seq<Step>>) returns (dispatched: nat, ghost trace: seq<Kernel>)
      requires Valid() && q < |ready| && cur[q] == None
      modifies this
      ensures Valid() && q < |ready| && cur[q] == None
      ensures IsTrace(trace, q, script) && trace[0] == old(State()) && trace[|trace| - 1] == State()
      ensures dispatched == |trace| - 1
      ensures dispatched <= |script| && (dispatched < |script| ==> ready[q] == [])
    {
      dispatched, trace := 0, [State()];
      while ready[q] != [] && dispatched < |script|
        invariant Valid() && q < |ready| && cur[q] == None && dispatched == |trace| - 1 && trace[0] == old(State())
        invariant IsTrace(trace, q, script) && trace[dispatched] == State()
        decreases |script| - dispatched
      {
        var nodeEda := Some(ready[q][0]);
        ghost var before := dispatched;
        while nodeEda.Some? && dispatched < |script|
          invariant Valid() && q < |ready| && cur[q] == None && dispatched == |trace| - 1 && trace[0] == old(State())
          invariant IsTrace(trace, q, script) && trace[dispatched] == State()
          invariant nodeEda.Some? ==> ready[q] != [] && ready[q][0] == nodeEda.value
          invariant before < dispatched || (before == dispatched && nodeEda.Some?)
          decreases |script| - dispatched
        {
          nodeEda, trace := DispatchNext(q, nodeEda.value, script, dispatched, trace);
          dispatched := dispatched + 1;
        }
      }
    }

    method DispatchNext(q: nat, node: nat, script: seq<seq<Step>>, n: nat, ghost trace: seq<Kernel>)
      returns (next: Option<nat>, ghost trace': seq<Kernel>)
      requires Valid() && Enabled(State(), PollBegin(q)) && node == ready[q][0]
      requires IsTrace(trace, q, script) && n == |trace| - 1 < |script| && trace[n] == State()
      modifies this
      ensures Valid() && q < |ready| && cur[q] == None
      ensures IsTrace(trace', q, script) && trace' == trace + [State()]
      ensures next.Some? ==> ready[q] != [] && ready[q][0] == next.value
    {
      ghost var r := Dispatched(State(), q, script[n]);
      TraceStep(trace, q, script, r);
      next := Dispatch(q, node, script[n]);
      trace' := trace + [r];
    }
  }

  lemma TakeBack(a: multiset<nat>, b: multiset<nat>, x: nat)
    requires x in a
    ensures a - multiset{x} + multiset{x} == a && b + multiset{x} - multiset{x} == b
  {
  }
}
