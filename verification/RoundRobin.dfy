/** Service order of the list event queue: ready tasks of one priority are served in turn. */
module RoundRobin {
  import opened Basics
  import opened EventQueueList

  /** The step takes one of the first `k + 1` tasks of queue `q` away without dispatching it. */
  predicate Takes(s: Kernel, step: Step, q: nat, k: nat)
    requires Shape(s) && q < |s.ready| && k < |s.ready[q]|
  {
    match step
    case SetPriority(t, p) => t < |s.eda| && t in s.ready[q][..k + 1] && !IsRunning(s, t) && p != s.eda[t].curPrio
    case Fini(t) => t < |s.eda| && t in s.ready[q][..k + 1] && !IsRunning(s, t)
    case _ => false
  }

  /** Completed dispatches of queue `q` in one step and in a run. */
  function Serves(step: Step, q: nat): nat {
    if step == PollEnd(q) then 1 else 0
  }

  function Served(steps: seq<Step>, q: nat, n: nat): nat
    requires n <= |steps|
  {
    if n == 0 then 0 else Served(steps, q, n - 1) + Serves(steps[n - 1], q)
  }

  /** No step takes away the task that starts at position `k` of queue `q`, or one ahead of it, before it is served. */
  ghost predicate Undisturbed(states: seq<Kernel>, steps: seq<Step>, q: nat, k: nat)
    requires |states| == |steps| + 1
  {
    forall i :: 0 <= i < |steps| ==> UndisturbedAt(states, steps, q, k, i)
  }

  ghost predicate UndisturbedAt(states: seq<Kernel>, steps: seq<Step>, q: nat, k: nat, i: nat)
    requires i < |steps| < |states|
  {
    Harmless(states[i], steps[i], q, k - Served(steps, q, i))
  }

  /** The step does not take away the task at position `j`, or one ahead of it. */
  predicate Harmless(s: Kernel, step: Step, q: nat, j: int) {
    Shape(s) && q < |s.ready| && 0 <= j < |s.ready[q]| ==> !Takes(s, step, q, j)
  }

  lemma RemoveBehind(l: seq<nat>, t: nat, k: nat)
    requires NoDup(l) && k < |l| && t in l && t !in l[..k + 1]
    ensures k < |Remove(l, t)| && Remove(l, t)[k] == l[k]
  {
    var i :| 0 <= i < |l| && l[i] == t;
    RemoveAt(l, i);
    assert forall j :: 0 <= j < k + 1 ==> l[..k + 1][j] == l[j];
  }

  lemma {:induction false} RemoveLast(l: seq<nat>, t: nat)
    requires t !in l
    ensures Remove(l + [t], t) == l
  {
    if l != [] {
      assert (l + [t])[1..] == l[1..] + [t];
      RemoveLast(l[1..], t);
    }
  }

  /** Taking a task off its list, or moving it to the tail of another, keeps the front of every other list. */
  lemma MoveAppends(s: Kernel, t: nat, p: nat, q: nat)
    requires Shape(s) && t < |s.eda| && p < |s.ready| && q < |s.ready| && p != s.eda[t].curPrio
    ensures var r := UpdatePriority(s, t, p);
      if q == s.eda[t].curPrio then r.ready[q] == if s.eda[t].isReady then Remove(s.ready[q], t) else s.ready[q]
      else r.ready[q] == s.ready[q] || (r.ready[q] == s.ready[q] + [t] && q == p)
  {
  }

  /** The end of a dispatch advances its own queue by one; another queue can only grow at the tail. */
  lemma EndAdvances(s: Kernel, q: nat, p: nat)
    requires Inv(s) && Enabled(s, PollEnd(q)) && p < |s.ready|
    ensures s.ready[q] != []
    ensures (if p == q then s.ready[q][1..] else s.ready[p]) <= End(s, q).ready[p]
  {
    var t := s.cur[q].value;
    assert t in s.ready[q];
    assert p != q && t in s.ready[p] ==> Belongs(s, p, t);
    Advance(s, q, p, t);
  }

  lemma Advance(s: Kernel, q: nat, p: nat, t: nat)
    requires Shape(s) && q < |s.ready| && p < |s.ready| && t < |s.eda|
    requires s.ready[q] != [] && s.ready[q][0] == t && s.eda[t].curPrio == q
    requires s.eda[t].isNewPrio ==> s.eda[t].newPrio < |s.ready| && s.eda[t].newPrio != q
    requires t !in if p == q then s.ready[q][1..] else s.ready[p]
    ensures var rest := if p == q then s.ready[q][1..] else s.ready[p];
      rest <= TakeNewPriority(Requeue(s, q, t), t).ready[p]
  {
    var rest := if p == q then s.ready[q][1..] else s.ready[p];
    RemoveLast(rest, t);
    var s1 := Requeue(s, q, t);
    RequeueLists(s, q, t, p);
    TakeNewPriorityEffect(s1, t);
    var s2 := TakeNewPriority(s1, t);
    if s1.eda[t].isNewPrio {
      MoveAppends(s1.(eda := s1.eda[t := s1.eda[t].(isNewPrio := false)]), t, s1.eda[t].newPrio, p);
    }
    assert s2.ready[p] == rest || s2.ready[p] == rest + [t];
  }

  lemma RequeueLists(s: Kernel, q: nat, t: nat, p: nat)
    requires Shape(s) && q < |s.ready| && t < |s.eda| && p < |s.ready|
    requires s.ready[q] != [] && s.ready[q][0] == t
    ensures var r := Requeue(s, q, t);
      if p != q then r.ready[p] == s.ready[p]
      else r.ready[q] == s.ready[q][1..] + if r.eda[t].isReady then [t] else []
  {
  }

  lemma FinishFront(s: Kernel, t: nat, q: nat, k: nat)
    requires Inv(s) && q < |s.ready| && k < |s.ready[q]| && t < |s.eda|
    requires t in s.ready[q][..k + 1] ==> IsRunning(s, t)
    ensures k < |Finish(s, t).ready[q]| && Finish(s, t).ready[q][k] == s.ready[q][k]
  {
    assert t in s.ready[q] ==> Belongs(s, q, t);
    if t in s.ready[q] && t !in s.ready[q][..k + 1] { RemoveBehind(s.ready[q], t, k); }
  }

  lemma RequestFront(s: Kernel, t: nat, p: nat, q: nat, k: nat)
    requires Inv(s) && q < |s.ready| && k < |s.ready[q]| && t < |s.eda| && p < |s.ready|
    requires t in s.ready[q][..k + 1] && p != s.eda[t].curPrio ==> IsRunning(s, t)
    ensures var r := RequestPriority(s, t, p); k < |r.ready[q]| && r.ready[q][k] == s.ready[q][k]
  {
    assert t in s.ready[q] ==> Belongs(s, q, t);
    if p != s.eda[t].curPrio { MoveAppends(s, t, p, q); }
    if t in s.ready[q] && t !in s.ready[q][..k + 1] { RemoveBehind(s.ready[q], t, k); }
  }

  /** One step either serves the queue, or leaves the task at position `k` where it is unless it takes it away. */
  lemma StepPosition(s: Kernel, step: Step, q: nat, k: nat)
    requires Inv(s) && Enabled(s, step) && q < |s.ready| && k < |s.ready[q]|
    requires !Takes(s, step, q, k)
    ensures var j := k - Serves(step, q);
      j >= 0 ==> j < |Apply(s, step).ready[q]| && Apply(s, step).ready[q][j] == s.ready[q][k]
  {
    match step
    case PollEnd(p) =>
      EndAdvances(s, p, q);
      if p == q && k > 0 { assert s.ready[q][1..][k - 1] == s.ready[q][k]; }
    case SetPriority(t, p) => RequestFront(s, t, p, q, k);
    case Fini(t) => FinishFront(s, t, q, k);
    case PollBegin(p) => assert s.ready[p][0] in s.ready[p];
    case _ =>
  }

  /**
   Round robin: over every run that does not take it or a task ahead of it away, the task at position `k` moves up
   by exactly one place for each completed dispatch of its queue, whatever is posted to the others.
   */
  lemma {:induction false} RoundRobinTurn(states: seq<Kernel>, steps: seq<Step>, q: nat, k: nat, n: nat)
    requires IsRun(states, steps) && n <= |steps| && q < |states[0].ready| && k < |states[0].ready[q]|
    requires Undisturbed(states, steps, q, k) && Served(steps, q, n) <= k
    ensures InPlace(states[n], q, k - Served(steps, q, n), states[0].ready[q][k])
  {
    if n > 0 {
      RoundRobinTurn(states, steps, q, k, n - 1);
      StepOf(states, steps, q, k, n - 1);
      TurnStep(states[n - 1], steps[n - 1], states[n], q, k - Served(steps, q, n - 1), states[0].ready[q][k]);
    }
  }

  /** Task `t` is at position `j` of queue `q`. */
  ghost predicate InPlace(s: Kernel, q: nat, j: int, t: nat) {
    Inv(s) && q < |s.ready| && 0 <= j < |s.ready[q]| && s.ready[q][j] == t
  }

  lemma StepOf(states: seq<Kernel>, steps: seq<Step>, q: nat, k: nat, i: nat)
    requires IsRun(states, steps) && Undisturbed(states, steps, q, k) && i < |steps|
    ensures Next(states[i], steps[i], states[i + 1]) && Harmless(states[i], steps[i], q, k - Served(steps, q, i))
  {
    assert NextAt(states, steps, i) && UndisturbedAt(states, steps, q, k, i);
  }

  lemma TurnStep(s: Kernel, step: Step, r: Kernel, q: nat, j: int, t: nat)
    requires InPlace(s, q, j, t) && Next(s, step, r) && Harmless(s, step, q, j) && j >= Serves(step, q)
    ensures InPlace(r, q, j - Serves(step, q), t)
  {
    StepInv(s, step);
    StepPosition(s, step, q, j);
  }

  /** Hence the next dispatch of the queue is the task's own exactly when `k` others have been served before it. */
  lemma DispatchedInTurn(states: seq<Kernel>, steps: seq<Step>, q: nat, k: nat, n: nat)
    requires IsRun(states, steps) && n < |steps| && q < |states[0].ready| && k < |states[0].ready[q]|
    requires Undisturbed(states, steps, q, k) && Served(steps, q, n) <= k
    requires steps[n] == PollBegin(q)
    ensures q < |states[n + 1].cur|
    ensures states[n + 1].cur[q] == Some(states[0].ready[q][k]) <==> Served(steps, q, n) == k
  {
    RoundRobinTurn(states, steps, q, k, n);
    assert NextAt(states, steps, n);
    assert states[n + 1] == Begin(states[n], q);
  }

  // ---------- the window at the end of a dispatch ----------

  /**
   Poll goes on with a successor it has cached, and leaves protection in between. While queue `q` has no running task,
   a step of another context keeps its head, which is that successor, exactly when it does not take it away.
   */
  lemma SuccessorStays(s: Kernel, step: Step, q: nat)
    requires Inv(s) && Enabled(s, step) && q < |s.ready| && s.cur[q] == None && s.ready[q] != []
    ensures var l := Apply(s, step).ready[q];
      (l != [] && l[0] == s.ready[q][0]) <==> !Takes(s, step, q, 0)
  {
    if Takes(s, step, q, 0) { HeadTaken(s, step, q); } else { StepPosition(s, step, q, 0); }
  }

  lemma HeadTaken(s: Kernel, step: Step, q: nat)
    requires Inv(s) && Enabled(s, step) && q < |s.ready| && s.ready[q] != [] && Takes(s, step, q, 0)
    ensures s.ready[q][0] !in Apply(s, step).ready[q]
  {
    var t := s.ready[q][0];
    assert t in s.ready[q] && s.ready[q][..1] == [t] && step.task == t;
    assert Belongs(s, q, t);
    RemoveMembers(s.ready[q], t);
    assert Apply(s, step).ready[q] == Remove(s.ready[q], t);
  }

  /** Over any steps in the window, as long as none of them takes the successor away. */
  lemma WindowSafe(states: seq<Kernel>, steps: seq<Step>, q: nat)
    requires IsRun(states, steps) && q < |states[0].ready| && states[0].ready[q] != []
    requires Undisturbed(states, steps, q, 0) && Served(steps, q, |steps|) == 0
    ensures var r := states[|steps|]; q < |r.ready| && r.ready[q] != [] && r.ready[q][0] == states[0].ready[q][0]
  {
    RoundRobinTurn(states, steps, q, 0, |steps|);
  }
}
