/**
 The list event queue of the kernel: one ready list per priority, one event list per task
 (source/kernel/vsf_evtq_list.c), as a machine whose steps are the protected regions of the C code.
 */
module EventQueueList {
  import opened Basics

  /** An event node of the pool, carrying a posted event. */
  datatype Node = Node(id: nat, evt: int)

  /** The scheduling part of vsf_eda_t. */
  datatype Eda = Eda(
    evts: seq<Node>,
    isReady: bool,
    curPrio: nat,
    newPrio: nat,
    isNewPrio: bool,
    isToExit: bool,
    isLimited: bool)

  /**
   The whole kernel: tasks, the ready list and the running task of every queue, the free event nodes
   and the nodes in flight (allocated but not yet posted, or left for somebody to free).
   Pool and flight are multisets, so that a double free would be visible.
   */
  datatype Kernel = Kernel(
    eda: seq<Eda>,
    ready: seq<seq<nat>>,
    cur: seq<Option<nat>>,
    pool: multiset<nat>,
    flight: multiset<nat>)

  datatype Step =
    | Init(task: nat, prio: nat)
    | Alloc(id: nat)
    | Free(id: nat)
    | Post(task: nat, id: nat, evt: int, force: bool)
    | SetLimited(task: nat, on: bool)
    | SetPriority(task: nat, prio: nat)
    | Unlink(task: nat, pos: nat)
    | Fini(task: nat)
    | PollBegin(queue: nat)
    | PollEnd(queue: nat)

  // ---------- the scheduling invariant ----------

  predicate Shape(s: Kernel) {
    && |s.cur| == |s.ready|
    && forall t :: 0 <= t < |s.eda| ==> s.eda[t].curPrio < |s.ready|
  }

  /** The test the code makes: is `t` the running task of the queue of its current priority? */
  predicate IsRunning(s: Kernel, t: nat)
    requires Shape(s) && t < |s.eda|
  {
    s.cur[s.eda[t].curPrio] == Some(t)
  }

  predicate Belongs(s: Kernel, q: nat, t: nat) {
    t < |s.eda| && s.eda[t].isReady && s.eda[t].curPrio == q
  }

  /** A task is ready exactly when it is in the list of its current priority, and in no other list. */
  ghost predicate Listed(s: Kernel)
    requires Shape(s)
  {
    && (forall q, t :: 0 <= q < |s.ready| && t in s.ready[q] ==> Belongs(s, q, t))
    && (forall t :: 0 <= t < |s.eda| && s.eda[t].isReady ==> t in s.ready[s.eda[t].curPrio])
    && forall q :: 0 <= q < |s.ready| ==> NoDup(s.ready[q])
  }

  /** The running task of a queue is the head of its ready list. */
  ghost predicate Heads(s: Kernel)
    requires Shape(s)
  {
    forall q :: 0 <= q < |s.cur| && s.cur[q].Some? ==> s.ready[q] != [] && s.ready[q][0] == s.cur[q].value
  }

  /** A ready task that is not running has an event to deliver; an idle task has none. */
  ghost predicate Pending(s: Kernel)
    requires Shape(s)
  {
    forall t :: 0 <= t < |s.eda| ==>
      && (s.eda[t].isReady && !IsRunning(s, t) ==> s.eda[t].evts != [])
      && (!s.eda[t].isReady ==> s.eda[t].evts == [])
  }

  /** A deferred priority change belongs to a running task and is a change. */
  ghost predicate Deferred(s: Kernel)
    requires Shape(s)
  {
    forall t :: 0 <= t < |s.eda| && s.eda[t].isNewPrio ==>
      IsRunning(s, t) && s.eda[t].newPrio < |s.ready| && s.eda[t].newPrio != s.eda[t].curPrio
  }

  ghost predicate Inv(s: Kernel) {
    Shape(s) && Listed(s) && Heads(s) && Pending(s) && Deferred(s)
  }

  // ---------- the steps ----------

  predicate Enabled(s: Kernel, step: Step)
    requires Shape(s)
  {
    match step
    case Init(t, p) => t < |s.eda| && !s.eda[t].isReady && p < |s.ready|
    case Alloc(id) => id in s.pool
    case Free(id) => id in s.flight
    case Post(t, id, _, _) => t < |s.eda| && id in s.flight
    case SetLimited(t, _) => t < |s.eda|
    case SetPriority(t, p) => t < |s.eda| && p < |s.ready|
    case Unlink(t, pos) => t < |s.eda| && IsRunning(s, t) && pos < |s.eda[t].evts|
    case Fini(t) => t < |s.eda|
    case PollBegin(q) => q < |s.ready| && s.cur[q] == None && s.ready[q] != []
    case PollEnd(q) => q < |s.ready| && s.cur[q].Some?
  }

  /** __vsf_eda_update_priotiry: move a ready task to the tail of another queue. */
  function UpdatePriority(s: Kernel, t: nat, p: nat): (r: Kernel)
    requires Shape(s) && t < |s.eda| && p < |s.ready|
    ensures |r.eda| == |s.eda| && |r.ready| == |s.ready|
  {
    var e := s.eda[t];
    var moved :=
      if e.isReady then
        var out := s.ready[e.curPrio := Remove(s.ready[e.curPrio], t)];
        out[p := out[p] + [t]]
      else s.ready;
    s.(ready := moved, eda := s.eda[t := e.(curPrio := p)])
  }

  /** __vsf_eda_set_priority, one protected region. */
  function RequestPriority(s: Kernel, t: nat, p: nat): (r: Kernel)
    requires Shape(s) && t < |s.eda| && p < |s.ready|
  {
    var e := s.eda[t];
    if e.curPrio == p then s
    else if !IsRunning(s, t) && !e.isNewPrio then UpdatePriority(s, t, p)
    else s.(eda := s.eda[t := e.(isNewPrio := true, newPrio := p)])
  }

  function NodeIds(evts: seq<Node>): multiset<nat> {
    if evts == [] then multiset{} else multiset{evts[0].id} + NodeIds(evts[1..])
  }

  /**
   The protected region of vsf_evtq_on_eda_fini: defer for the running task, else leave the ready list. The events are
   then freed one by one, outside protection: they are in flight, and each is freed by a step of its own.
   */
  function Finish(s: Kernel, t: nat): (r: Kernel)
    requires Shape(s) && t < |s.eda|
    ensures |r.eda| == |s.eda| && |r.ready| == |s.ready|
  {
    var e := s.eda[t];
    if IsRunning(s, t) then s.(eda := s.eda[t := e.(isToExit := true)])
    else
      s.(ready := if e.isReady then s.ready[e.curPrio := Remove(s.ready[e.curPrio], t)] else s.ready,
         flight := s.flight + NodeIds(e.evts),
         eda := s.eda[t := e.(isReady := false, evts := [])])
  }

  /** The protected part of __vsf_evtq_post; a refused node stays in flight until it is freed. */
  function Enqueue(s: Kernel, t: nat, id: nat, evt: int, force: bool): (r: Kernel)
    requires Shape(s) && t < |s.eda| && id in s.flight
  {
    var e := s.eda[t];
    if Refused(e, force) then s
    else
      s.(flight := s.flight - multiset{id},
         ready := if e.isReady then s.ready else s.ready[e.curPrio := s.ready[e.curPrio] + [t]],
         eda := s.eda[t := e.(isReady := true, evts := e.evts + [Node(id, evt)])])
  }

  predicate Refused(e: Eda, force: bool) {
    e.isLimited && e.isReady && !force
  }

  /** Poll takes the head of the ready list and the oldest event of that task. */
  function Begin(s: Kernel, q: nat): (r: Kernel)
    requires Inv(s) && Enabled(s, PollBegin(q))
    ensures |r.eda| == |s.eda| && |r.ready| == |s.ready|
  {
    var t := s.ready[q][0];
    assert t in s.ready[q];
    var e := s.eda[t];
    s.(cur := s.cur[q := Some(t)],
       flight := s.flight + multiset{e.evts[0].id},
       eda := s.eda[t := e.(evts := e.evts[1..])])
  }

  /**
   Poll after the handler, up to where it leaves protection: requeue or retire the task, then take the deferred
   priority. A deferred exit is a `Fini` of its own.
   */
  function End(s: Kernel, q: nat): (r: Kernel)
    requires Inv(s) && Enabled(s, PollEnd(q))
    ensures |r.eda| == |s.eda| && |r.ready| == |s.ready|
  {
    var t := s.cur[q].value;
    assert t in s.ready[q];
    TakeNewPriority(Requeue(s, q, t), t)
  }

  function TakeNewPriority(s: Kernel, t: nat): (r: Kernel)
    requires Shape(s) && t < |s.eda| && (s.eda[t].isNewPrio ==> s.eda[t].newPrio < |s.ready|)
    ensures Shape(r) && |r.eda| == |s.eda| && |r.ready| == |s.ready|
  {
    var e := s.eda[t];
    if e.isNewPrio then UpdatePriority(s.(eda := s.eda[t := e.(isNewPrio := false)]), t, e.newPrio) else s
  }

  function Requeue(s: Kernel, q: nat, t: nat): (r: Kernel)
    requires Shape(s) && q < |s.ready| && t < |s.eda|
  {
    var rest := Remove(s.ready[q], t);
    var e := s.eda[t];
    s.(cur := s.cur[q := None],
       ready := s.ready[q := if e.evts == [] then rest else rest + [t]],
       eda := s.eda[t := e.(isReady := e.evts != [])])
  }

  function Apply(s: Kernel, step: Step): (r: Kernel)
    requires Inv(s) && Enabled(s, step)
    ensures |r.eda| == |s.eda| && |r.ready| == |s.ready|
  {
    match step
    case Init(t, p) =>
      s.(eda := s.eda[t := Eda([], false, p, s.eda[t].newPrio, false, false, false)])
    case Alloc(id) => s.(pool := s.pool - multiset{id}, flight := s.flight + multiset{id})
    case Free(id) => s.(pool := s.pool + multiset{id}, flight := s.flight - multiset{id})
    case Post(t, id, evt, force) => Enqueue(s, t, id, evt, force)
    case SetLimited(t, on) => s.(eda := s.eda[t := s.eda[t].(isLimited := on)])
    case SetPriority(t, p) => RequestPriority(s, t, p)
    case Unlink(t, pos) =>
      var e := s.eda[t];
      s.(flight := s.flight + multiset{e.evts[pos].id},
         eda := s.eda[t := e.(evts := e.evts[..pos] + e.evts[pos + 1..])])
    case Fini(t) => Finish(s, t)
    case PollBegin(q) => Begin(s, q)
    case PollEnd(q) => End(s, q)
  }

  // ---------- every step keeps the invariant ----------

  lemma UpdatePriorityInv(s: Kernel, t: nat, p: nat)
    requires Inv(s) && t < |s.eda| && p < |s.ready|
    requires !IsRunning(s, t) && !s.eda[t].isNewPrio && p != s.eda[t].curPrio
    ensures Inv(UpdatePriority(s, t, p))
  {
    UpdateLists(s, t, p);
    var r := UpdatePriority(s, t, p);
    assert Shape(r) && forall u :: 0 <= u < |s.eda| ==> (IsRunning(r, u) <==> IsRunning(s, u)) by {
      assert t !in s.ready[p] by { assert t in s.ready[p] ==> Belongs(s, p, t); }
    }
  }

  /** What moving a task does to the ready lists: it is in the new one if it was ready, and the heads stay. */
  lemma UpdateLists(s: Kernel, t: nat, p: nat)
    requires Inv(s) && t < |s.eda| && p < |s.ready| && !IsRunning(s, t) && p != s.eda[t].curPrio
    ensures var r := UpdatePriority(s, t, p);
      forall q :: 0 <= q < |s.ready| ==>
        && NoDup(r.ready[q])
        && (forall u :: u in r.ready[q] <==> if u == t then s.eda[t].isReady && q == p else u in s.ready[q])
        && (s.ready[q] != [] && s.ready[q][0] != t ==> r.ready[q] != [] && r.ready[q][0] == s.ready[q][0])
  {
    var e := s.eda[t];
    forall q | 0 <= q < |s.ready| ensures t in s.ready[q] <==> e.isReady && q == e.curPrio {
      assert t in s.ready[q] ==> Belongs(s, q, t);
    }
    if e.isReady {
      RemoveMembers(s.ready[e.curPrio], t);
      RemoveKeepsHead(s.ready[e.curPrio], t);
      AppendNoDup(s.ready[p], t);
    }
  }

  lemma RemoveKeepsHead(l: seq<nat>, t: nat)
    ensures l != [] && l[0] != t ==> Remove(l, t) != [] && Remove(l, t)[0] == l[0]
  {
  }

  lemma FinishInv(s: Kernel, t: nat)
    requires Inv(s) && t < |s.eda|
    ensures Inv(Finish(s, t))
  {
    var e := s.eda[t];
    if !IsRunning(s, t) && e.isReady {
      assert t in s.ready[e.curPrio];
      RemoveMembers(s.ready[e.curPrio], t);
      RemoveKeepsHead(s.ready[e.curPrio], t);
    }
  }

  lemma EnqueueInv(s: Kernel, t: nat, id: nat, evt: int, force: bool)
    requires Inv(s) && t < |s.eda| && id in s.flight
    ensures Inv(Enqueue(s, t, id, evt, force))
  {
    var e := s.eda[t];
    if !Refused(e, force) && !e.isReady {
      assert t !in s.ready[e.curPrio];
      AppendNoDup(s.ready[e.curPrio], t);
    }
  }

  lemma BeginInv(s: Kernel, q: nat)
    requires Inv(s) && Enabled(s, PollBegin(q))
    ensures Inv(Begin(s, q))
  {
    assert s.ready[q][0] in s.ready[q];
  }

  lemma RequeueInv(s: Kernel, q: nat)
    requires Inv(s) && Enabled(s, PollEnd(q))
    ensures s.cur[q].value < |s.eda| && s.eda[s.cur[q].value].curPrio == q
    ensures var t := s.cur[q].value; var r := Requeue(s, q, t);
            && |r.ready| == |s.ready| && |r.eda| == |s.eda|
            && Inv(r.(eda := r.eda[t := r.eda[t].(isNewPrio := false)])) && !IsRunning(r, t)
  {
    var t := s.cur[q].value;
    assert t in s.ready[q];
    RemoveMembers(s.ready[q], t);
    var rest := Remove(s.ready[q], t);
    AppendNoDup(rest, t);
  }

  lemma EndInv(s: Kernel, q: nat)
    requires Inv(s) && Enabled(s, PollEnd(q))
    ensures Inv(End(s, q))
  {
    var t := s.cur[q].value;
    RequeueInv(s, q);
    var s1 := Requeue(s, q, t);
    var e := s1.eda[t];
    var cleared := s1.(eda := s1.eda[t := e.(isNewPrio := false)]);
    if e.isNewPrio { UpdatePriorityInv(cleared, t, e.newPrio); } else { assert cleared == s1; }
  }

  /** The steps that touch one task and no ready list. */
  lemma LocalInv(s: Kernel, step: Step)
    requires Inv(s) && Enabled(s, step)
    requires step.Init? || step.SetLimited? || step.Unlink?
    ensures Inv(Apply(s, step))
  {
    var t := step.task;
    if step.Init? { assert !IsRunning(s, t) by { assert t !in s.ready[s.eda[t].curPrio]; } }
    var r := Apply(s, step);
    assert r.ready == s.ready && r.cur == s.cur;
    assert forall u :: 0 <= u < |s.eda| && u != t ==> r.eda[u] == s.eda[u];
    assert r.eda[t].isReady == s.eda[t].isReady;
    assert r.eda[t].isReady ==> r.eda[t].curPrio == s.eda[t].curPrio;
  }

  /** Every step keeps the scheduling invariant, whatever the interleaving. */
  lemma StepInv(s: Kernel, step: Step)
    requires Inv(s) && Enabled(s, step)
    ensures Inv(Apply(s, step))
  {
    match step
    case Init(_, _) => LocalInv(s, step);
    case Unlink(_, _) => LocalInv(s, step);
    case SetLimited(_, _) => LocalInv(s, step);
    case Post(t, id, evt, force) => EnqueueInv(s, t, id, evt, force);
    case SetPriority(t, p) => RequestInv(s, t, p);
    case Fini(t) => FinishInv(s, t);
    case PollBegin(q) => BeginInv(s, q);
    case PollEnd(q) => EndInv(s, q);
    case _ =>
  }

  lemma RequestInv(s: Kernel, t: nat, p: nat)
    requires Inv(s) && t < |s.eda| && p < |s.ready|
    ensures Inv(RequestPriority(s, t, p))
  {
    if s.eda[t].curPrio != p && !IsRunning(s, t) && !s.eda[t].isNewPrio { UpdatePriorityInv(s, t, p); }
  }

  // ---------- whole runs ----------

  /** One step of a run. What the code would do outside the invariant is left open. */
  ghost predicate Next(s: Kernel, step: Step, r: Kernel) {
    Inv(s) ==> Enabled(s, step) && r == Apply(s, step)
  }

  /** Step `i` of a run. */
  ghost predicate NextAt(states: seq<Kernel>, steps: seq<Step>, i: nat)
    requires i < |steps| < |states|
  {
    Next(states[i], steps[i], states[i + 1])
  }

  /** A run: any interleaving of steps, each enabled where it is taken. */
  ghost predicate IsRun(states: seq<Kernel>, steps: seq<Step>) {
    && |states| == |steps| + 1 && Inv(states[0])
    && forall i :: 0 <= i < |steps| ==> NextAt(states, steps, i)
  }

  /** Every state of every run satisfies the invariant, and a run creates no tasks and no queues. */
  lemma {:induction false} RunInv(states: seq<Kernel>, steps: seq<Step>, n: nat)
    requires IsRun(states, steps) && n <= |steps|
    ensures Inv(states[n])
    ensures |states[n].eda| == |states[0].eda| && |states[n].ready| == |states[0].ready|
  {
    if n > 0 {
      RunInv(states, steps, n - 1);
      assert NextAt(states, steps, n - 1);
      StepInv(states[n - 1], steps[n - 1]);
    }
  }

  /** A task that has just been started: no events, not limited, nothing deferred. */
  predicate Fresh(e: Eda) {
    e.evts == [] && !e.isReady && !e.isNewPrio && !e.isToExit && !e.isLimited
  }

  /** After initialisation: no task is ready, nothing runs, every node is free. */
  ghost predicate Boot(s: Kernel, nodes: set<nat>) {
    && Shape(s)
    && (forall q :: 0 <= q < |s.ready| ==> s.ready[q] == [] && s.cur[q] == None)
    && (forall t :: 0 <= t < |s.eda| ==> Fresh(s.eda[t]))
    && s.pool == multiset(nodes) && s.flight == multiset{}
  }

  lemma {:induction false} OnceOrNot(l: seq<nat>, t: nat)
    requires NoDup(l)
    ensures multiset(l)[t] == if t in l then 1 else 0
  {
    if l != [] {
      assert l == [l[0]] + l[1..];
      assert NoDup(l[1..]) by {
        forall i, j | 0 <= i < j < |l[1..]| ensures l[1..][i] != l[1..][j] { assert l[i + 1] != l[j + 1]; }
      }
      OnceOrNot(l[1..], t);
      assert l[0] !in l[1..];
    }
  }

  /**
   Safety of the scheduler: in every state of every run from boot, a task occurs once in the ready list of its
   current priority if it is ready and in no list otherwise; a running task heads its list; a ready task that
   is not running has an event; a deferred priority change belongs to a running task.
   */
  lemma SchedulerSafety(states: seq<Kernel>, steps: seq<Step>, nodes: set<nat>, n: nat)
    requires |states| == |steps| + 1 && Boot(states[0], nodes)
    requires forall i :: 0 <= i < |steps| ==> NextAt(states, steps, i)
    requires n <= |steps|
    ensures Shape(states[n])
    ensures var s := states[n];
      && (forall q, t :: 0 <= q < |s.ready| && 0 <= t < |s.eda| ==>
            multiset(s.ready[q])[t] == if s.eda[t].isReady && s.eda[t].curPrio == q then 1 else 0)
      && (forall q :: 0 <= q < |s.ready| && s.cur[q].Some? ==> s.ready[q] != [] && s.ready[q][0] == s.cur[q].value)
      && (forall t :: 0 <= t < |s.eda| && s.eda[t].isReady && s.cur[s.eda[t].curPrio] != Some(t) ==>
            s.eda[t].evts != [])
      && (forall t :: 0 <= t < |s.eda| && s.eda[t].isNewPrio ==> s.cur[s.eda[t].curPrio] == Some(t))
  {
    BootInv(states[0], nodes);
    RunInv(states, steps, n);
    var s := states[n];
    forall q, t | 0 <= q < |s.ready| && 0 <= t < |s.eda|
      ensures multiset(s.ready[q])[t] == if s.eda[t].isReady && s.eda[t].curPrio == q then 1 else 0
    {
      OnceOrNot(s.ready[q], t);
      assert t in s.ready[q] ==> Belongs(s, q, t);
    }
    forall t | 0 <= t < |s.eda|
      ensures s.eda[t].isReady && s.cur[s.eda[t].curPrio] != Some(t) ==> s.eda[t].evts != []
      ensures s.eda[t].isNewPrio ==> s.cur[s.eda[t].curPrio] == Some(t)
    {
      assert IsRunning(s, t) <==> s.cur[s.eda[t].curPrio] == Some(t);
    }
  }

  /** A task that is started anew begins afresh, at the priority it is given. */
  lemma InitFresh(s: Kernel, t: nat, p: nat)
    requires Inv(s) && Enabled(s, Init(t, p))
    ensures var r := Apply(s, Init(t, p));
      Fresh(r.eda[t]) && r.eda[t].curPrio == p && r == s.(eda := s.eda[t := r.eda[t]])
  {
  }

  lemma BootInv(s: Kernel, nodes: set<nat>)
    requires Boot(s, nodes)
    ensures Inv(s)
  {
  }

  // ---------- priorities ----------

  /** __vsf_eda_get_cur_priority */
  function EffectivePriority(e: Eda): nat {
    if e.isNewPrio then e.newPrio else e.curPrio
  }

  /** A priority request takes effect at once, except when it repeats the current one while a change is deferred. */
  lemma RequestTakesEffect(s: Kernel, t: nat, p: nat)
    requires Inv(s) && t < |s.eda| && p < |s.ready|
    ensures EffectivePriority(Apply(s, SetPriority(t, p)).eda[t]) == p
       <==> (p != s.eda[t].curPrio || !s.eda[t].isNewPrio)
  {
    assert s.eda[t].isNewPrio ==> s.eda[t].newPrio != s.eda[t].curPrio;
  }

  /** The priority a task has asked for, after one more step; `asked` is the one before it. */
  function Asked(s: Kernel, step: Step, t: nat, asked: nat): nat
    requires t < |s.eda|
  {
    match step
    case Init(u, p) => if u == t then p else asked
    case SetPriority(u, p) => if u == t && p != s.eda[t].curPrio then p else asked
    case _ => asked
  }

  /** The last request of a run that passes the guard of the code (asking for anything but the current priority). */
  ghost function LastRequest(states: seq<Kernel>, steps: seq<Step>, t: nat, n: nat): nat
    requires IsRun(states, steps) && n <= |steps| && t < |states[0].eda|
  {
    RunInv(states, steps, 0);
    if n == 0 then EffectivePriority(states[0].eda[t])
    else
      RunInv(states, steps, n - 1);
      Asked(states[n - 1], steps[n - 1], t, LastRequest(states, steps, t, n - 1))
  }

  lemma TakeNewPriorityEffect(s: Kernel, t: nat)
    requires Shape(s) && t < |s.eda| && (s.eda[t].isNewPrio ==> s.eda[t].newPrio < |s.ready|)
    ensures var r := TakeNewPriority(s, t); var e := s.eda[t];
      && r.cur == s.cur && r.pool == s.pool && r.flight == s.flight
      && r.eda == s.eda[t := e.(curPrio := EffectivePriority(e), isNewPrio := false)]
  {
  }

  /** What the end of a dispatch leaves of the task that ran, and of the others. */
  lemma EndEffect(s: Kernel, q: nat)
    requires Inv(s) && Enabled(s, PollEnd(q))
    ensures var t := s.cur[q].value; var r := End(s, q);
      && t < |s.eda| && r.cur == s.cur[q := None]
      && r.eda == s.eda[t := r.eda[t]]
      && r.eda[t].curPrio == EffectivePriority(s.eda[t]) && !r.eda[t].isNewPrio
      && r.eda[t].evts == s.eda[t].evts && (r.eda[t].isReady <==> s.eda[t].evts != [])
      && r.eda[t].isToExit == s.eda[t].isToExit && r.eda[t].isLimited == s.eda[t].isLimited
      && r.flight == s.flight && r.pool == s.pool
  {
    RequeueInv(s, q);
    var t := s.cur[q].value;
    var s1 := Requeue(s, q, t);
    TakeNewPriorityEffect(s1, t);
  }

  /** A running task is running on one queue only. */
  lemma NotElsewhere(s: Kernel, q: nat)
    requires Inv(s) && q < |s.cur| && s.cur[q].Some?
    ensures forall p :: 0 <= p < |s.cur| && p != q ==> s.cur[p] != s.cur[q]
  {
    assert s.cur[q].value in s.ready[q];
    assert forall p :: 0 <= p < |s.cur| && s.cur[p].Some? ==> s.cur[p].value in s.ready[p];
  }

  lemma EffectiveStep(s: Kernel, step: Step, t: nat)
    requires Inv(s) && Enabled(s, step) && t < |s.eda|
    ensures EffectivePriority(Apply(s, step).eda[t]) == Asked(s, step, t, EffectivePriority(s.eda[t]))
  {
    if step.PollEnd? {
      EndEffect(s, step.queue);
    } else {
      EffectiveOther(s, step, t);
    }
  }

  lemma EffectiveOther(s: Kernel, step: Step, t: nat)
    requires Inv(s) && Enabled(s, step) && t < |s.eda| && !step.PollEnd?
    ensures EffectivePriority(Apply(s, step).eda[t]) == Asked(s, step, t, EffectivePriority(s.eda[t]))
  {
    if step.PollBegin? { assert s.ready[step.queue][0] in s.ready[step.queue]; }
  }

  /**
   Over every run, the last request that passes the code's guard is the task's effective priority; and whenever
   the task is not running, so in particular when its dispatch has ended, it is the queue the task is in.
   */
  lemma {:induction false} LastRequestWins(states: seq<Kernel>, steps: seq<Step>, t: nat, n: nat)
    requires IsRun(states, steps) && n <= |steps| && t < |states[0].eda|
    ensures Inv(states[n]) && |states[n].eda| == |states[0].eda|
    ensures var r, p := states[n], LastRequest(states, steps, t, n);
      && EffectivePriority(r.eda[t]) == p
      && (!IsRunning(r, t) ==> r.eda[t].curPrio == p)
      && (!IsRunning(r, t) && r.eda[t].isReady ==> p < |r.ready| && t in r.ready[p])
  {
    RunInv(states, steps, n);
    if n > 0 {
      LastRequestWins(states, steps, t, n - 1);
      assert NextAt(states, steps, n - 1);
      EffectiveStep(states[n - 1], steps[n - 1], t);
    }
  }

  /** When a dispatch ends, the task that ran is no longer running and is on the queue it last asked for. */
  lemma DispatchEnd(s: Kernel, q: nat)
    requires Inv(s) && Enabled(s, PollEnd(q))
    ensures var t := s.cur[q].value; var r := Apply(s, PollEnd(q));
      && Shape(r) && t < |s.eda| && !IsRunning(r, t)
      && r.eda[t].curPrio == EffectivePriority(s.eda[t])
  {
    EndEffect(s, q);
    EndInv(s, q);
    NotElsewhere(s, q);
  }
}
