/** What the loops of source/kernel/vsf_evtq_list.c do to the kernel, whatever handlers and others do meanwhile. */
module EventQueueListRuns {
  import opened Basics
  import opened EventQueueList
  import opened RoundRobin

  // ---------- what happens during a dispatch ----------

  /** Any step but the end of this dispatch; where it is not possible it does nothing. */
  predicate Possible(s: Kernel, step: Step, q: nat)
    requires Shape(s)
  {
    step != PollEnd(q) && Enabled(s, step)
  }

  ghost function Do(s: Kernel, step: Step, q: nat): (r: Kernel)
    requires Inv(s)
    ensures Inv(r) && |r.eda| == |s.eda| && |r.ready| == |s.ready|
    ensures q < |s.cur| && s.cur[q].Some? ==> r.cur[q] == s.cur[q]
  {
    if Possible(s, step, q) then
      StepInv(s, step);
      assert q < |s.cur| && s.cur[q].Some? ==> Apply(s, step).cur[q] == s.cur[q] by { KeepsRunning(s, step, q); }
      Apply(s, step)
    else s
  }

  ghost function DoAll(s: Kernel, acts: seq<Step>, q: nat): (r: Kernel)
    requires Inv(s)
    ensures Inv(r) && |r.eda| == |s.eda| && |r.ready| == |s.ready|
    ensures q < |s.cur| && s.cur[q].Some? ==> r.cur[q] == s.cur[q]
  {
    if acts == [] then s else Do(DoAll(s, acts[..|acts| - 1], q), acts[|acts| - 1], q)
  }

  /** Every action that is possible when its turn comes is taken. */
  lemma ActionTaken(s: Kernel, acts: seq<Step>, a: Step, q: nat)
    requires Inv(s) && Enabled(DoAll(s, acts, q), a) && a != PollEnd(q)
    ensures DoAll(s, acts + [a], q) == Apply(DoAll(s, acts, q), a)
  {
    assert (acts + [a])[..|acts|] == acts;
  }

  /** Only its own end of dispatch takes the running task off a queue. */
  lemma KeepsRunning(s: Kernel, step: Step, q: nat)
    requires Inv(s) && Enabled(s, step) && step != PollEnd(q)
    ensures q < |s.cur| && s.cur[q].Some? ==> Apply(s, step).cur[q] == s.cur[q]
  {
    if step.PollEnd? { EndEffect(s, step.queue); }
  }

  // ---------- exit ----------

  /** The events left to the loop of vsf_evtq_on_eda_fini. */
  function ExitNodes(s: Kernel, t: nat): seq<Node>
    requires Shape(s) && t < |s.eda|
  {
    if IsRunning(s, t) then [] else s.eda[t].evts
  }

  function FreeOne(s: Kernel, id: nat): (r: Kernel) {
    s.(pool := s.pool + multiset{id}, flight := s.flight - multiset{id})
  }

  function FreeAll(s: Kernel, nodes: seq<Node>): (r: Kernel) {
    s.(pool := s.pool + NodeIds(nodes), flight := s.flight - NodeIds(nodes))
  }

  /** vsf_evtq_on_eda_fini, the loop included. */
  function Exited(s: Kernel, t: nat): (r: Kernel)
    requires Shape(s) && t < |s.eda|
  {
    FreeAll(Finish(s, t), ExitNodes(s, t))
  }

  lemma ExitedInv(s: Kernel, t: nat)
    requires Inv(s) && t < |s.eda|
    ensures Inv(Exited(s, t)) && Exited(s, t).cur == s.cur && NodeIds(ExitNodes(s, t)) <= Finish(s, t).flight
  {
    FinishInv(s, t);
  }

  // ---------- dispatch and poll ----------

  /** The kernel when the handler returns. */
  ghost function Handled(s: Kernel, q: nat, acts: seq<Step>): (r: Kernel)
    requires Inv(s) && Enabled(s, PollBegin(q))
    ensures Inv(r) && Enabled(r, PollEnd(q)) && |r.eda| == |s.eda| && |r.ready| == |s.ready|
    ensures s.ready[q][0] < |s.eda| && r.cur[q] == Some(s.ready[q][0])
  {
    assert s.ready[q][0] in s.ready[q];
    BeginInv(s, q);
    var begun := Begin(s, q);
    DoAll(Apply(begun, EventQueueList.Free(s.eda[s.ready[q][0]].evts[0].id)), acts, q)
  }

  /**
   One pass of the inner loop of vsf_evtq_poll: begin, free the node, whatever happens meanwhile, end, and the exit of
   the task if it was asked for.
   */
  ghost function Dispatched(s: Kernel, q: nat, acts: seq<Step>): (r: Kernel)
    requires Inv(s) && Enabled(s, PollBegin(q))
    ensures Inv(r) && |r.eda| == |s.eda| && |r.ready| == |s.ready| && r.cur[q] == None
  {
    Settled(Handled(s, q, acts), q)
  }

  /** From the end of the handler on. */
  ghost function Settled(m: Kernel, q: nat): (r: Kernel)
    requires Inv(m) && Enabled(m, PollEnd(q))
    ensures Inv(r) && |r.eda| == |m.eda| && |r.ready| == |m.ready| && r.cur[q] == None
  {
    EndInv(m, q);
    EndEffect(m, q);
    var t, e := m.cur[q].value, End(m, q);
    ExitedInv(e, t);
    if e.eda[t].isToExit then Exited(e, t) else e
  }

  /** The kernel before each dispatch of vsf_evtq_poll, and after the last; each follows from the one before it. */
  ghost predicate DispatchAt(trace: seq<Kernel>, q: nat, script: seq<seq<Step>>, i: nat)
    requires i + 1 < |trace| && i < |script|
  {
    Inv(trace[i]) && Enabled(trace[i], PollBegin(q)) && trace[i + 1] == Dispatched(trace[i], q, script[i])
  }

  ghost predicate IsTrace(trace: seq<Kernel>, q: nat, script: seq<seq<Step>>) {
    0 < |trace| <= |script| + 1 && forall i :: 0 <= i < |trace| - 1 ==> DispatchAt(trace, q, script, i)
  }

  lemma TraceStep(trace: seq<Kernel>, q: nat, script: seq<seq<Step>>, r: Kernel)
    requires IsTrace(trace, q, script) && |trace| <= |script|
    requires var s := trace[|trace| - 1];
      Inv(s) && Enabled(s, PollBegin(q)) && r == Dispatched(s, q, script[|trace| - 1])
    ensures IsTrace(trace + [r], q, script)
  {
    var t := trace + [r];
    forall i | 0 <= i < |t| - 1 ensures DispatchAt(t, q, script, i) {
      if i < |trace| - 1 { assert DispatchAt(trace, q, script, i); }
    }
  }

  // ---------- as runs of the machine ----------

  /** A run continued to `r`, with `n` more completed dispatches of queue `q`. */
  ghost predicate Continues(states: seq<Kernel>, steps: seq<Step>, states': seq<Kernel>, steps': seq<Step>,
                            r: Kernel, q: nat, n: nat)
  {
    && IsRun(states, steps) && IsRun(states', steps') && states <= states' && steps <= steps'
    && states'[|steps'|] == r && Served(steps', q, |steps'|) == Served(steps, q, |steps|) + n
  }

  lemma Extend(states: seq<Kernel>, steps: seq<Step>, step: Step, q: nat)
    requires IsRun(states, steps) && Inv(states[|steps|]) && Enabled(states[|steps|], step)
    ensures var r := Apply(states[|steps|], step);
      Continues(states, steps, states + [r], steps + [step], r, q, Serves(step, q))
  {
    var states', steps' := states + [Apply(states[|steps|], step)], steps + [step];
    forall i | 0 <= i < |steps'| ensures NextAt(states', steps', i) {
      if i < |steps| { assert NextAt(states, steps, i); }
    }
    ServedPrefix(steps, steps', q, |steps|);
  }

  lemma {:induction false} ServedPrefix(a: seq<Step>, b: seq<Step>, q: nat, n: nat)
    requires a <= b && n <= |a|
    ensures Served(a, q, n) == Served(b, q, n)
  {
    if n > 0 { ServedPrefix(a, b, q, n - 1); }
  }

  lemma {:induction false} ActionsRun(states: seq<Kernel>, steps: seq<Step>, acts: seq<Step>, q: nat)
    returns (states': seq<Kernel>, steps': seq<Step>)
    requires IsRun(states, steps) && Inv(states[|steps|])
    ensures Continues(states, steps, states', steps', DoAll(states[|steps|], acts, q), q, 0)
    decreases |acts|
  {
    states', steps' := states, steps;
    if acts != [] {
      var init, a := acts[..|acts| - 1], acts[|acts| - 1];
      states', steps' := ActionsRun(states, steps, init, q);
      var m := DoAll(states[|steps|], init, q);
      if Possible(m, a, q) {
        Extend(states', steps', a, q);
        states', steps' := states' + [Apply(m, a)], steps' + [a];
      }
    }
  }

  /** The free loop of an exit is one `Free` step for each event. */
  lemma {:induction false} FreesRun(states: seq<Kernel>, steps: seq<Step>, nodes: seq<Node>, q: nat)
    returns (states': seq<Kernel>, steps': seq<Step>)
    requires IsRun(states, steps) && Inv(states[|steps|]) && NodeIds(nodes) <= states[|steps|].flight
    ensures Continues(states, steps, states', steps', FreeAll(states[|steps|], nodes), q, 0)
    decreases |nodes|
  {
    states', steps' := states, steps;
    var s := states[|steps|];
    FreeFirst(s, nodes);
    if nodes != [] {
      var step := EventQueueList.Free(nodes[0].id);
      Extend(states, steps, step, q);
      StepInv(s, step);
      states', steps' := FreesRun(states + [Apply(s, step)], steps + [step], nodes[1..], q);
    }
  }

  lemma FreeFirst(s: Kernel, nodes: seq<Node>)
    requires NodeIds(nodes) <= s.flight
    ensures nodes == [] ==> FreeAll(s, nodes) == s
    ensures nodes != [] ==>
      && nodes[0].id in s.flight && NodeIds(nodes[1..]) <= FreeOne(s, nodes[0].id).flight
      && FreeAll(FreeOne(s, nodes[0].id), nodes[1..]) == FreeAll(s, nodes)
  {
    if nodes == [] {
      assert s.pool + multiset{} == s.pool && s.flight - multiset{} == s.flight;
    } else {
      MoveFirst(s.pool, s.flight, nodes[0].id, NodeIds(nodes[1..]));
    }
  }

  lemma MoveFirst(pool: multiset<nat>, flight: multiset<nat>, x: nat, rest: multiset<nat>)
    requires multiset{x} + rest <= flight
    ensures x in flight && rest <= flight - multiset{x}
    ensures flight - multiset{x} - rest == flight - (multiset{x} + rest)
    ensures (pool + multiset{x}) + rest == pool + (multiset{x} + rest)
  {
  }

  /** Where the free loop is. */
  ghost predicate Freeing(s: Kernel, nodes: seq<Node>, now: Kernel, left: seq<Node>) {
    NodeIds(left) <= now.flight && FreeAll(now, left) == FreeAll(s, nodes)
  }

  lemma FreeingStep(s: Kernel, nodes: seq<Node>, now: Kernel, left: seq<Node>)
    requires Freeing(s, nodes, now, left)
    ensures left == [] ==> now == FreeAll(s, nodes)
    ensures left != [] ==> Freeing(s, nodes, FreeOne(now, left[0].id), left[1..])
  {
    FreeFirst(now, left);
  }

  lemma ExitRun(states: seq<Kernel>, steps: seq<Step>, t: nat, q: nat) returns (states': seq<Kernel>, steps': seq<Step>)
    requires IsRun(states, steps) && Inv(states[|steps|]) && t < |states[|steps|].eda|
    ensures Continues(states, steps, states', steps', Exited(states[|steps|], t), q, 0)
  {
    var s := states[|steps|];
    Extend(states, steps, Fini(t), q);
    ExitedInv(s, t);
    FinishInv(s, t);
    states', steps' := FreesRun(states + [Finish(s, t)], steps + [Fini(t)], ExitNodes(s, t), q);
  }

  lemma BeginRun(states: seq<Kernel>, steps: seq<Step>, q: nat, acts: seq<Step>)
    returns (states': seq<Kernel>, steps': seq<Step>)
    requires IsRun(states, steps) && Inv(states[|steps|]) && Enabled(states[|steps|], PollBegin(q))
    ensures Continues(states, steps, states', steps', Handled(states[|steps|], q, acts), q, 0)
  {
    var s := states[|steps|];
    assert s.ready[q][0] in s.ready[q];
    var id := s.eda[s.ready[q][0]].evts[0].id;
    Extend(states, steps, PollBegin(q), q);
    BeginInv(s, q);
    var s1 := Begin(s, q);
    states', steps' := states + [s1], steps + [PollBegin(q)];
    Extend(states', steps', EventQueueList.Free(id), q);
    StepInv(s1, EventQueueList.Free(id));
    states', steps' := states' + [Apply(s1, EventQueueList.Free(id))], steps' + [EventQueueList.Free(id)];
    states', steps' := ActionsRun(states', steps', acts, q);
  }

  lemma SettleRun(states: seq<Kernel>, steps: seq<Step>, q: nat) returns (states': seq<Kernel>, steps': seq<Step>)
    requires IsRun(states, steps) && Inv(states[|steps|]) && Enabled(states[|steps|], PollEnd(q))
    ensures Continues(states, steps, states', steps', Settled(states[|steps|], q), q, 1)
  {
    var m := states[|steps|];
    Extend(states, steps, PollEnd(q), q);
    EndInv(m, q);
    EndEffect(m, q);
    var t, e := m.cur[q].value, End(m, q);
    states', steps' := states + [e], steps + [PollEnd(q)];
    if e.eda[t].isToExit {
      states', steps' := ExitRun(states', steps', t, q);
    }
  }

  /** A pass of the inner loop is a run with one completed dispatch of the queue. */
  lemma DispatchIsRun(states: seq<Kernel>, steps: seq<Step>, q: nat, acts: seq<Step>)
    returns (states': seq<Kernel>, steps': seq<Step>)
    requires IsRun(states, steps) && Inv(states[|steps|]) && Enabled(states[|steps|], PollBegin(q))
    ensures Continues(states, steps, states', steps', Dispatched(states[|steps|], q, acts), q, 1)
  {
    states', steps' := BeginRun(states, steps, q, acts);
    states', steps' := SettleRun(states', steps', q);
  }

  /** And vsf_evtq_poll is a run of the machine, dispatch by dispatch. */
  lemma {:induction false} PollIsRun(states: seq<Kernel>, steps: seq<Step>, trace: seq<Kernel>, q: nat,
                                     script: seq<seq<Step>>, n: nat)
    returns (states': seq<Kernel>, steps': seq<Step>)
    requires IsRun(states, steps) && IsTrace(trace, q, script) && n < |trace| && states[|steps|] == trace[0]
    ensures Continues(states, steps, states', steps', trace[n], q, n)
  {
    states', steps' := states, steps;
    if n > 0 {
      states', steps' := PollIsRun(states, steps, trace, q, script, n - 1);
      assert DispatchAt(trace, q, script, n - 1);
      states', steps' := DispatchIsRun(states', steps', q, script[n - 1]);
    }
  }
}
