/** Event nodes of the list event queue are neither lost nor freed twice. */
module NodeConservation {
  import opened Basics
  import opened EventQueueList

  /** How often a node occurs in an event list. */
  function Occurs(evts: seq<Node>, id: nat): nat {
    if evts == [] then 0 else (if evts[0].id == id then 1 else 0) + Occurs(evts[1..], id)
  }

  /** How often a node occurs in the event lists of all tasks, and how many events they hold. */
  function Held(eda: seq<Eda>, id: nat): nat {
    if eda == [] then 0 else Occurs(eda[0].evts, id) + Held(eda[1..], id)
  }

  function EventCount(eda: seq<Eda>): nat {
    if eda == [] then 0 else |eda[0].evts| + EventCount(eda[1..])
  }

  /** Number of places where node `id` is. */
  function Places(s: Kernel, id: nat): nat {
    s.pool[id] + s.flight[id] + Held(s.eda, id)
  }

  /** Number of nodes anywhere. */
  function Total(s: Kernel): nat {
    |s.pool| + |s.flight| + EventCount(s.eda)
  }

  lemma {:induction false} HeldUpdate(eda: seq<Eda>, t: nat, e: Eda, id: nat)
    requires t < |eda|
    ensures Held(eda[t := e], id) + Occurs(eda[t].evts, id) == Held(eda, id) + Occurs(e.evts, id)
    ensures EventCount(eda[t := e]) + |eda[t].evts| == EventCount(eda) + |e.evts|
  {
    if t == 0 {
      assert eda[0 := e][1..] == eda[1..];
    } else {
      assert eda[t := e][1..] == eda[1..][t - 1 := e];
      HeldUpdate(eda[1..], t - 1, e, id);
    }
  }

  lemma {:induction false} OccursConcat(a: seq<Node>, b: seq<Node>, id: nat)
    ensures Occurs(a + b, id) == Occurs(a, id) + Occurs(b, id)
  {
    if a == [] {
      assert a + b == b;
    } else {
      assert (a + b)[1..] == a[1..] + b;
      OccursConcat(a[1..], b, id);
    }
  }

  lemma {:induction false} NodeIdsCount(evts: seq<Node>, id: nat)
    ensures NodeIds(evts)[id] == Occurs(evts, id) && |NodeIds(evts)| == |evts|
  {
    if evts != [] { NodeIdsCount(evts[1..], id); }
  }

  /** Taking the node at `pos` out of a list. */
  lemma OccursCut(evts: seq<Node>, pos: nat, id: nat)
    requires pos < |evts|
    ensures Occurs(evts, id) == (if evts[pos].id == id then 1 else 0) + Occurs(evts[..pos] + evts[pos + 1..], id)
  {
    assert evts == evts[..pos] + evts[pos..];
    OccursConcat(evts[..pos], evts[pos..], id);
    OccursConcat(evts[..pos], evts[pos + 1..], id);
    assert evts[pos..][1..] == evts[pos + 1..];
  }

  /** A change of one task's list that is made up for by pool and flight keeps the places of a node. */
  lemma OneTask(s: Kernel, r: Kernel, t: nat, id: nat)
    requires t < |s.eda| && |r.eda| == |s.eda| && r.eda == s.eda[t := r.eda[t]]
    requires r.pool[id] + r.flight[id] + Occurs(r.eda[t].evts, id)
          == s.pool[id] + s.flight[id] + Occurs(s.eda[t].evts, id)
    requires |r.pool| + |r.flight| + |r.eda[t].evts| == |s.pool| + |s.flight| + |s.eda[t].evts|
    ensures Places(r, id) == Places(s, id) && Total(r) == Total(s)
  {
    HeldUpdate(s.eda, t, r.eda[t], id);
  }

  lemma EndPlaces(s: Kernel, q: nat, id: nat)
    requires Inv(s) && Enabled(s, PollEnd(q))
    ensures Places(End(s, q), id) == Places(s, id) && Total(End(s, q)) == Total(s)
  {
    EndEffect(s, q);
    OneTask(s, End(s, q), s.cur[q].value, id);
  }

  lemma FinishPlaces(s: Kernel, t: nat, id: nat)
    requires Shape(s) && t < |s.eda|
    ensures Places(Finish(s, t), id) == Places(s, id) && Total(Finish(s, t)) == Total(s)
  {
    NodeIdsCount(s.eda[t].evts, id);
    OneTask(s, Finish(s, t), t, id);
  }

  lemma BeginPlaces(s: Kernel, q: nat, id: nat)
    requires Inv(s) && Enabled(s, PollBegin(q))
    ensures Places(Begin(s, q), id) == Places(s, id) && Total(Begin(s, q)) == Total(s)
  {
    assert s.ready[q][0] in s.ready[q];
    OneTask(s, Begin(s, q), s.ready[q][0], id);
  }

  lemma EnqueuePlaces(s: Kernel, step: Step, id: nat)
    requires Shape(s) && step.Post? && Enabled(s, step)
    ensures var r := Enqueue(s, step.task, step.id, step.evt, step.force);
      Places(r, id) == Places(s, id) && Total(r) == Total(s)
  {
    var n := Node(step.id, step.evt);
    OccursConcat(s.eda[step.task].evts, [n], id);
    assert Occurs([n], id) == if n.id == id then 1 else 0;
    OneTask(s, Enqueue(s, step.task, step.id, step.evt, step.force), step.task, id);
  }

  lemma LocalPlaces(s: Kernel, step: Step, id: nat)
    requires Inv(s) && Enabled(s, step)
    requires step.Init? || step.SetLimited? || step.Unlink? || step.SetPriority?
    ensures Places(Apply(s, step), id) == Places(s, id) && Total(Apply(s, step)) == Total(s)
  {
    if step.Unlink? { OccursCut(s.eda[step.task].evts, step.pos, id); }
    OneTask(s, Apply(s, step), step.task, id);
  }

  lemma StepPlaces(s: Kernel, step: Step, id: nat)
    requires Inv(s) && Enabled(s, step)
    ensures Places(Apply(s, step), id) == Places(s, id) && Total(Apply(s, step)) == Total(s)
  {
    match step
    case Alloc(_) =>
    case Free(_) =>
    case Fini(t) => FinishPlaces(s, t, id);
    case Post(_, _, _, _) => EnqueuePlaces(s, step, id);
    case PollBegin(q) => BeginPlaces(s, q, id);
    case PollEnd(q) => EndPlaces(s, q, id);
    case _ => LocalPlaces(s, step, id);
  }

  lemma {:induction false} RunPlaces(states: seq<Kernel>, steps: seq<Step>, n: nat, id: nat)
    requires IsRun(states, steps) && n <= |steps|
    ensures Places(states[n], id) == Places(states[0], id) && Total(states[n]) == Total(states[0])
  {
    if n > 0 {
      RunPlaces(states, steps, n - 1, id);
      RunInv(states, steps, n - 1);
      assert NextAt(states, steps, n - 1);
      StepPlaces(states[n - 1], steps[n - 1], id);
    }
  }

  lemma {:induction false} HeldHas(eda: seq<Eda>, t: nat, i: nat)
    requires t < |eda| && i < |eda[t].evts|
    ensures Held(eda, eda[t].evts[i].id) >= 1
  {
    if t > 0 { HeldHas(eda[1..], t - 1, i); } else { OccursCut(eda[0].evts, i, eda[0].evts[i].id); }
  }

  lemma {:induction false} NothingHeld(eda: seq<Eda>, id: nat)
    requires forall t :: 0 <= t < |eda| ==> eda[t].evts == []
    ensures Held(eda, id) == 0 && EventCount(eda) == 0
  {
    if eda != [] {
      assert forall t :: 0 <= t < |eda[1..]| ==> eda[1..][t] == eda[t + 1];
      NothingHeld(eda[1..], id);
    }
  }

  /**
   Conservation over every run from boot: each configured node is at exactly one place, so free nodes, queued
   events and nodes in flight always add up to the configured pool; and no step ever frees a node that is already
   free or still in a list.
   */
  lemma NodesConserved(states: seq<Kernel>, steps: seq<Step>, nodes: set<nat>, n: nat)
    requires IsRun(states, steps) && Boot(states[0], nodes) && n <= |steps|
    ensures var s := states[n];
      && (forall id: nat :: s.pool[id] + s.flight[id] + Held(s.eda, id) == if id in nodes then 1 else 0)
      && |s.pool| + |s.flight| + EventCount(s.eda) == |nodes|
      && (n < |steps| && steps[n].Free? ==> steps[n].id !in s.pool && Held(s.eda, steps[n].id) == 0)
      && (forall t, i :: 0 <= t < |s.eda| && 0 <= i < |s.eda[t].evts| ==>
            s.eda[t].evts[i].id !in s.pool && s.eda[t].evts[i].id !in s.flight)
  {
    var s := states[n];
    RunInv(states, steps, n);
    forall id: nat
      ensures s.pool[id] + s.flight[id] + Held(s.eda, id) == if id in nodes then 1 else 0
    {
      NothingHeld(states[0].eda, id);
      RunPlaces(states, steps, n, id);
    }
    RunPlaces(states, steps, n, 0);
    NothingHeld(states[0].eda, 0);
    if n < |steps| && steps[n].Free? { assert NextAt(states, steps, n); }
    forall t, i | 0 <= t < |s.eda| && 0 <= i < |s.eda[t].evts|
      ensures s.eda[t].evts[i].id !in s.pool && s.eda[t].evts[i].id !in s.flight
    {
      HeldHas(s.eda, t, i);
    }
  }
}
