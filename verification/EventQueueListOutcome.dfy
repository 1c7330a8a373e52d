/** What a dispatch of the list event queue comes to: which exits are honoured, and where the event nodes end up. */
module EventQueueListOutcome {
  import opened Basics
  import opened EventQueueList
  import opened EventQueueListRuns

  // ---------- exits ----------

  /** An exit of the task has been called while it was running, and it has not been started anew since. */
  ghost predicate ExitAsked(states: seq<Kernel>, steps: seq<Step>, t: nat, n: nat)
    requires n <= |steps| < |states|
  {
    n > 0 &&
    if steps[n - 1] == Fini(t) && Some(t) in states[n - 1].cur then true
    else if steps[n - 1].Init? && steps[n - 1].task == t then false
    else ExitAsked(states, steps, t, n - 1)
  }

  lemma RunningIsCur(s: Kernel, t: nat)
    requires Inv(s) && t < |s.eda|
    ensures IsRunning(s, t) <==> Some(t) in s.cur
  {
    if Some(t) in s.cur {
      var q :| 0 <= q < |s.cur| && s.cur[q] == Some(t);
      assert t in s.ready[q];
      assert Belongs(s, q, t);
    }
  }

  lemma MarkStep(s: Kernel, step: Step, t: nat)
    requires Inv(s) && Enabled(s, step) && t < |s.eda|
    ensures Apply(s, step).eda[t].isToExit <==>
      if step == Fini(t) && Some(t) in s.cur then true
      else if step.Init? && step.task == t then false
      else s.eda[t].isToExit
  {
    RunningIsCur(s, t);
    match step
    case PollEnd(q) => EndEffect(s, q);
    case PollBegin(q) => assert s.ready[q][0] in s.ready[q];
    case _ =>
  }

  /** Over every run from boot: a task is to exit exactly when that was asked for while it was running. */
  lemma {:induction false} MarkedExactly(states: seq<Kernel>, steps: seq<Step>, nodes: set<nat>, t: nat, n: nat)
    requires IsRun(states, steps) && Boot(states[0], nodes) && n <= |steps| && t < |states[0].eda|
    ensures Inv(states[n]) && t < |states[n].eda|
    ensures states[n].eda[t].isToExit <==> ExitAsked(states, steps, t, n)
  {
    RunInv(states, steps, n);
    if n > 0 {
      MarkedExactly(states, steps, nodes, t, n - 1);
      assert NextAt(states, steps, n - 1);
      MarkStep(states[n - 1], steps[n - 1], t);
    }
  }

  /** While a task runs, only its own exit marks it, and nothing starts it anew. */
  lemma {:induction false} MarkAll(s: Kernel, acts: seq<Step>, q: nat, t: nat)
    requires Inv(s) && q < |s.cur| && s.cur[q] == Some(t)
    ensures t < |s.eda| && (DoAll(s, acts, q).eda[t].isToExit <==> s.eda[t].isToExit || Fini(t) in acts)
    decreases |acts|
  {
    assert t in s.ready[q];
    if acts != [] {
      var init, a := acts[..|acts| - 1], acts[|acts| - 1];
      MarkAll(s, init, q, t);
      var m := DoAll(s, init, q);
      assert t in m.ready[q];
      assert acts == init + [a];
      if Possible(m, a, q) { MarkStep(m, a, t); }
    }
  }

  /** The task is in no list and has no events. */
  ghost predicate Gone(s: Kernel, t: nat) {
    && t < |s.eda| && !s.eda[t].isReady && s.eda[t].evts == []
    && forall p :: 0 <= p < |s.ready| ==> t !in s.ready[p]
  }

  /**
   Exits of running tasks are honoured, and no others: over every run from boot, a dispatch leaves its task out of every
   list and without events if its exit was asked for before or is asked for during the dispatch, by whomever; and
   otherwise it keeps the events that are left when the handler returns, and is ready exactly when there are any.
   */
  lemma ExitHonoured(states: seq<Kernel>, steps: seq<Step>, nodes: set<nat>, q: nat, acts: seq<Step>)
    requires IsRun(states, steps) && Boot(states[0], nodes)
    requires Inv(states[|steps|]) && Enabled(states[|steps|], PollBegin(q))
    ensures var s := states[|steps|]; var t, h, r := s.ready[q][0], Handled(s, q, acts), Dispatched(s, q, acts);
      && t < |s.eda|
      && if ExitAsked(states, steps, t, |steps|) || Fini(t) in acts then Gone(r, t)
         else r.eda[t].evts == h.eda[t].evts && (r.eda[t].isReady <==> h.eda[t].evts != [])
  {
    var s := states[|steps|];
    var t := s.ready[q][0];
    assert t in s.ready[q];
    RunInv(states, steps, |steps|);
    MarkedExactly(states, steps, nodes, t, |steps|);
    HandledStart(s, q, acts);
    MarkAll(Started(s, q), acts, q, t);
    SettledExit(Handled(s, q, acts), q);
  }

  lemma SettledExit(m: Kernel, q: nat)
    requires Inv(m) && Enabled(m, PollEnd(q))
    ensures var t, r := m.cur[q].value, Settled(m, q);
      && t < |m.eda|
      && if m.eda[t].isToExit then Gone(r, t)
         else r.eda[t].evts == m.eda[t].evts && (r.eda[t].isReady <==> m.eda[t].evts != [])
  {
    EndEffect(m, q);
    DispatchEnd(m, q);
    EndInv(m, q);
    var t, e := m.cur[q].value, End(m, q);
    if e.eda[t].isToExit {
      ExitedInv(e, t);
      var r := Exited(e, t);
      forall p | 0 <= p < |r.ready| ensures t !in r.ready[p] { assert t in r.ready[p] ==> Belongs(r, p, t); }
    }
  }

  // ---------- nodes ----------

  /** The kernel when the handler starts: the head runs, its oldest event is off its list, and the node is free. */
  function Started(s: Kernel, q: nat): (r: Kernel)
    requires q < |s.ready| && q < |s.cur| && s.ready[q] != []
    requires s.ready[q][0] < |s.eda| && s.eda[s.ready[q][0]].evts != []
  {
    var t := s.ready[q][0];
    var evts := s.eda[t].evts;
    var eda := s.eda[t := s.eda[t].(evts := evts[1..])];
    Kernel(eda, s.ready, s.cur[q := Some(t)], s.pool + multiset{evts[0].id}, s.flight)
  }

  /** A dispatch is what happens from there on. */
  lemma HandledStart(s: Kernel, q: nat, acts: seq<Step>)
    requires Inv(s) && Enabled(s, PollBegin(q))
    ensures s.ready[q][0] < |s.eda| && s.eda[s.ready[q][0]].evts != []
    ensures Inv(Started(s, q)) && Handled(s, q, acts) == DoAll(Started(s, q), acts, q)
  {
    var t := s.ready[q][0];
    assert t in s.ready[q];
    BeginInv(s, q);
    var id := s.eda[t].evts[0].id;
    assert (s.flight + multiset{id}) - multiset{id} == s.flight;
    assert Apply(Begin(s, q), EventQueueList.Free(id)) == Started(s, q);
  }

  /** An exit frees the events of the task, all of them, and leaves nothing in flight. */
  lemma ExitedNodes(s: Kernel, t: nat)
    requires Inv(s) && t < |s.eda|
    ensures var r := Exited(s, t);
      && r.flight == s.flight && r.pool + NodeIds(r.eda[t].evts) == s.pool + NodeIds(s.eda[t].evts)
      && (Some(t) !in s.cur ==> r.eda[t].evts == [])
  {
    RunningIsCur(s, t);
    var ids := NodeIds(s.eda[t].evts);
    assert (s.flight + ids) - ids == s.flight;
    assert NodeIds([]) == multiset{} && s.pool + ids + multiset{} == s.pool + ids;
    assert s.flight - multiset{} == s.flight && s.pool + multiset{} == s.pool;
  }

  /** From the end of the handler on, nothing comes into flight, and events are freed or stay with their task. */
  lemma SettledNodes(m: Kernel, q: nat)
    requires Inv(m) && Enabled(m, PollEnd(q))
    ensures var t, r := m.cur[q].value, Settled(m, q);
      && t < |m.eda| && |r.eda| == |m.eda| && r.eda == m.eda[t := r.eda[t]] && r.flight == m.flight
      && r.pool + NodeIds(r.eda[t].evts) == m.pool + NodeIds(m.eda[t].evts)
  {
    EndNodes(m, q);
    var t, e := m.cur[q].value, End(m, q);
    if e.eda[t].isToExit { ExitedTask(m, e, t); }
  }

  lemma EndNodes(m: Kernel, q: nat)
    requires Inv(m) && Enabled(m, PollEnd(q))
    ensures var t, e := m.cur[q].value, End(m, q);
      && Inv(e) && t < |m.eda| && |e.eda| == |m.eda| && e.eda == m.eda[t := e.eda[t]] && e.eda[t].evts == m.eda[t].evts
      && e.flight == m.flight && e.pool == m.pool
  {
    EndEffect(m, q);
    EndInv(m, q);
  }

  lemma ExitedTask(m: Kernel, e: Kernel, t: nat)
    requires Inv(e) && t < |m.eda| && |e.eda| == |m.eda| && e.eda == m.eda[t := e.eda[t]]
    ensures var r := Exited(e, t);
      && |r.eda| == |m.eda| && r.eda == m.eda[t := r.eda[t]] && r.flight == e.flight
      && r.pool + NodeIds(r.eda[t].evts) == e.pool + NodeIds(e.eda[t].evts)
  {
    ExitedNodes(e, t);
    ExitedOthers(e, t);
  }

  lemma ExitedOthers(s: Kernel, t: nat)
    requires Shape(s) && t < |s.eda|
    ensures |Exited(s, t).eda| == |s.eda| && Exited(s, t).eda == s.eda[t := Exited(s, t).eda[t]]
  {
  }

  /** The action neither allocates nor frees, takes no node in flight, leaves none there, and starts no exit. */
  predicate Quiet(step: Step) {
    step.Init? || step.SetLimited? || step.SetPriority? || step.PollEnd?
  }

  lemma QuietStep(s: Kernel, step: Step, t: nat)
    requires Inv(s) && Enabled(s, step) && Quiet(step) && t < |s.eda|
    ensures var r := Apply(s, step); r.pool == s.pool && r.flight == s.flight && r.eda[t].evts == s.eda[t].evts
  {
    if step.PollEnd? { EndEffect(s, step.queue); }
  }

  lemma {:induction false} QuietAll(s: Kernel, acts: seq<Step>, q: nat, t: nat)
    requires Inv(s) && t < |s.eda| && forall i :: 0 <= i < |acts| ==> Quiet(acts[i])
    ensures var r := DoAll(s, acts, q); r.pool == s.pool && r.flight == s.flight && r.eda[t].evts == s.eda[t].evts
    decreases |acts|
  {
    if acts != [] {
      var init, a := acts[..|acts| - 1], acts[|acts| - 1];
      QuietAll(s, init, q, t);
      if Possible(DoAll(s, init, q), a, q) { QuietStep(DoAll(s, init, q), a, t); }
    }
  }

  /**
   Where the nodes are after a dispatch in which nobody else touches any: the node of the oldest event is back in the
   pool, nothing else comes into flight, and the rest of the task's events are with it or, if it has exited, freed too.
   */
  lemma DispatchNodes(s: Kernel, q: nat, acts: seq<Step>)
    requires Inv(s) && Enabled(s, PollBegin(q)) && forall i :: 0 <= i < |acts| ==> Quiet(acts[i])
    ensures var t, r := s.ready[q][0], Dispatched(s, q, acts);
      && t < |s.eda| && s.eda[t].evts != [] && r.flight == s.flight
      && var evts := s.eda[t].evts; var pool := s.pool + multiset{evts[0].id};
      && r.pool + NodeIds(r.eda[t].evts) == pool + NodeIds(evts[1..])
      && (!s.eda[t].isToExit ==> r.eda[t].evts == evts[1..] && r.pool == pool)
  {
    var t, m, r := s.ready[q][0], Handled(s, q, acts), Dispatched(s, q, acts);
    QuietHandled(s, q, acts);
    SettledNodes(m, q);
    if !s.eda[t].isToExit {
      SettledExit(m, q);
      Cancel(r.pool, m.pool, NodeIds(m.eda[t].evts));
    }
  }

  lemma QuietHandled(s: Kernel, q: nat, acts: seq<Step>)
    requires Inv(s) && Enabled(s, PollBegin(q)) && forall i :: 0 <= i < |acts| ==> Quiet(acts[i])
    ensures var t, m := s.ready[q][0], Handled(s, q, acts);
      && t < |s.eda| && s.eda[t].evts != [] && m.cur[q] == Some(t) && m.flight == s.flight
      && m.pool == s.pool + multiset{s.eda[t].evts[0].id} && m.eda[t].evts == s.eda[t].evts[1..]
      && (m.eda[t].isToExit <==> s.eda[t].isToExit)
  {
    var t := s.ready[q][0];
    HandledStart(s, q, acts);
    QuietAll(Started(s, q), acts, q, t);
    MarkAll(Started(s, q), acts, q, t);
  }

  lemma Cancel(a: multiset<nat>, b: multiset<nat>, c: multiset<nat>)
    requires a + c == b + c
    ensures a == b
  {
    assert a == (a + c) - c && b == (b + c) - c;
  }

  ghost predicate Idle(script: seq<seq<Step>>) {
    forall i :: 0 <= i < |script| ==> script[i] == []
  }

  /** A whole poll in which handlers do nothing leaves nothing in flight. */
  lemma {:induction false} PollFlight(trace: seq<Kernel>, q: nat, script: seq<seq<Step>>, n: nat)
    requires IsTrace(trace, q, script) && Idle(script) && n < |trace|
    ensures trace[n].flight == trace[0].flight
  {
    if n > 0 {
      PollFlight(trace, q, script, n - 1);
      assert DispatchAt(trace, q, script, n - 1);
      DispatchNodes(trace[n - 1], q, script[n - 1]);
    }
  }

  /** And without exits the pool has grown by exactly one node for each dispatch. */
  lemma {:induction false} PollFrees(trace: seq<Kernel>, q: nat, script: seq<seq<Step>>, n: nat)
    requires IsTrace(trace, q, script) && Idle(script) && n < |trace|
    requires NoExits(trace[0])
    ensures NoExits(trace[n]) && |trace[n].pool| == |trace[0].pool| + n
  {
    if n > 0 {
      PollFrees(trace, q, script, n - 1);
      assert DispatchAt(trace, q, script, n - 1);
      IdleDispatch(trace[n - 1], q);
    }
  }

  predicate NoExits(s: Kernel) {
    forall t :: 0 <= t < |s.eda| ==> !s.eda[t].isToExit
  }

  lemma IdleDispatch(s: Kernel, q: nat)
    requires Inv(s) && Enabled(s, PollBegin(q)) && NoExits(s)
    ensures NoExits(Dispatched(s, q, [])) && |Dispatched(s, q, []).pool| == |s.pool| + 1
  {
    DispatchNodes(s, q, []);
    HandledStart(s, q, []);
    EndEffect(Handled(s, q, []), q);
  }
}
