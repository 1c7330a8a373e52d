/**
 The unprotected part of vsf_evtq_on_eda_fini (source/kernel/vsf_evtq_list.c): the task has left the ready list, and its
 events are freed one by one while other contexts go on.
 */
module ExitWindow {
  import opened Basics
  import opened EventQueueList
  import opened EventQueueListRuns

  /** The loop goes on until the task's list is empty: whatever is put there meanwhile is freed as well. */
  function Swept(s: Kernel, t: nat): (r: Kernel)
    requires t < |s.eda|
  {
    s.(pool := s.pool + NodeIds(s.eda[t].evts), eda := s.eda[t := s.eda[t].(evts := [])])
  }

  /** A task that has left: not ready, not running, nothing on its list. */
  ghost predicate Gone(s: Kernel, t: nat)
    requires Shape(s)
  {
    t < |s.eda| && !IsRunning(s, t) && !s.eda[t].isReady && s.eda[t].evts == []
  }

  lemma ExitLeaves(s: Kernel, t: nat)
    requires Inv(s) && t < |s.eda| && !IsRunning(s, t)
    ensures Inv(Finish(s, t)) && Gone(Finish(s, t), t)
  {
    FinishInv(s, t);
  }

  lemma GoneIsSwept(s: Kernel, t: nat)
    requires Shape(s) && Gone(s, t)
    ensures Swept(s, t) == s
  {
    assert NodeIds([]) == multiset{} && s.pool + multiset{} == s.pool;
  }

  /** Every step of another context but a post to the task leaves it gone. */
  lemma StaysGone(s: Kernel, step: Step, t: nat)
    requires Inv(s) && Gone(s, t) && Enabled(s, step) && !(step.Post? && step.task == t)
    ensures Inv(Apply(s, step)) && Gone(Apply(s, step), t)
  {
    StepInv(s, step);
    StaysIdle(s, step, t);
    NotRunning(Apply(s, step), t);
  }

  lemma StaysIdle(s: Kernel, step: Step, t: nat)
    requires Inv(s) && Gone(s, t) && Enabled(s, step) && !(step.Post? && step.task == t)
    ensures !Apply(s, step).eda[t].isReady && Apply(s, step).eda[t].evts == []
  {
    match step
    case PollEnd(q) => EndEffect(s, q);
    case PollBegin(q) => assert s.ready[q][0] in s.ready[q];
    case _ =>
  }

  lemma NotRunning(s: Kernel, t: nat)
    requires Inv(s) && t < |s.eda| && !s.eda[t].isReady
    ensures !IsRunning(s, t)
  {
    assert t !in s.ready[s.eda[t].curPrio];
  }

  /** The events of the exit that are on the list when the loop comes to them: starting the task anew drops them. */
  function Remaining(s: Kernel, t: nat, step: Step): seq<Node>
    requires t < |s.eda|
  {
    if step.Init? && step.task == t then [] else s.eda[t].evts
  }

  /** An exit with one step of another context between leaving the ready list and the free loop. */
  ghost function Interrupted(s: Kernel, t: nat, step: Step): Kernel
    requires Shape(s) && t < |s.eda| && Inv(Finish(s, t)) && Enabled(Finish(s, t), step)
  {
    Swept(FreeAll(Apply(Finish(s, t), step), Remaining(s, t, step)), t)
  }

  /**
   Which step breaks the window: the scheduling invariant holds at the end if and only if the step is not a post to the
   task, which makes it ready before the loop takes its event away; and the events of the exit are no longer in flight
   if and only if the step does not start the task anew, or there were none.
   */
  lemma ExitWindowExact(s: Kernel, t: nat, step: Step)
    requires Inv(s) && t < |s.eda| && !IsRunning(s, t)
    requires Inv(Finish(s, t)) && Enabled(Finish(s, t), step)
    ensures Inv(Interrupted(s, t, step)) <==> !(step.Post? && step.task == t)
    ensures Interrupted(s, t, step).flight == Apply(Finish(s, t), step).flight - NodeIds(s.eda[t].evts)
       <==> !(step.Init? && step.task == t && s.eda[t].evts != [])
  {
    ExitKeepsInv(s, t, step);
    ExitFreesNodes(s, t, step);
  }

  lemma ExitKeepsInv(s: Kernel, t: nat, step: Step)
    requires Inv(s) && t < |s.eda| && !IsRunning(s, t)
    requires Inv(Finish(s, t)) && Enabled(Finish(s, t), step)
    ensures Inv(Interrupted(s, t, step)) <==> !(step.Post? && step.task == t)
  {
    ExitLeaves(s, t);
    var m := Finish(s, t);
    var r := FreeAll(Apply(m, step), Remaining(s, t, step));
    if step.Post? && step.task == t {
      PostedThenSwept(m, step, Remaining(s, t, step));
    } else {
      StaysGone(m, step, t);
      assert Inv(r) && Gone(r, t);
      GoneIsSwept(r, t);
    }
  }

  lemma PostedThenSwept(m: Kernel, step: Step, nodes: seq<Node>)
    requires Inv(m) && Enabled(m, step) && step.Post? && Gone(m, step.task)
    ensures !Inv(Swept(FreeAll(Apply(m, step), nodes), step.task))
  {
    var r, t := Swept(FreeAll(Apply(m, step), nodes), step.task), step.task;
    assert r.eda[t].isReady && r.eda[t].evts == [] && !IsRunning(r, t);
  }

  lemma ExitFreesNodes(s: Kernel, t: nat, step: Step)
    requires Shape(s) && t < |s.eda| && !IsRunning(s, t)
    requires Inv(Finish(s, t)) && Enabled(Finish(s, t), step)
    ensures Interrupted(s, t, step).flight == Apply(Finish(s, t), step).flight - NodeIds(s.eda[t].evts)
       <==> !(step.Init? && step.task == t && s.eda[t].evts != [])
  {
    var flight := Apply(Finish(s, t), step).flight;
    assert Interrupted(s, t, step).flight == flight - NodeIds(Remaining(s, t, step));
    if step.Init? && step.task == t {
      assert flight == s.flight + NodeIds(s.eda[t].evts);
      if s.eda[t].evts != [] { Leaked(s.flight, s.eda[t].evts); }
    }
  }

  lemma Leaked(flight: multiset<nat>, evts: seq<Node>)
    requires evts != []
    ensures (flight + NodeIds(evts)) - NodeIds([]) != (flight + NodeIds(evts)) - NodeIds(evts)
  {
    var id := evts[0].id;
    assert NodeIds(evts)[id] > 0 && ((flight + NodeIds(evts)) - NodeIds(evts))[id] == flight[id];
  }

  /** Over any steps in the window without such a post, the loop finds just the events that were there at the exit. */
  lemma {:induction false} ExitWindowRun(states: seq<Kernel>, steps: seq<Step>, t: nat, n: nat)
    requires IsRun(states, steps) && n <= |steps| && Gone(states[0], t)
    requires forall i :: 0 <= i < |steps| && steps[i].Post? ==> steps[i].task != t
    ensures Inv(states[n]) && Gone(states[n], t) && Swept(states[n], t) == states[n]
  {
    RunInv(states, steps, n);
    if n > 0 {
      ExitWindowRun(states, steps, t, n - 1);
      assert NextAt(states, steps, n - 1);
      StaysGone(states[n - 1], steps[n - 1], t);
    }
    GoneIsSwept(states[n], t);
  }
}
