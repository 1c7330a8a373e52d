/**
 The array event queue of the kernel (source/kernel/vsf_evtq_array.c) over an abstract bounded queue: one queue
 and the tasks of its priority. `EventQueueArrayCode` shows that the ring buffer behaves like this queue.
 */
module EventQueueArray {
  import opened Basics

  /** A posted event; a cleaned slot has no task. */
  datatype Slot = Slot(eda: Option<nat>, evt: int)

  /**
   The scheduling part of vsf_eda_t. `cnt` is the 8-bit evt_cnt. `leaving` is not a field: an exit has found the count
   nonzero and has not marked the task yet. `cleaned` and `terminated` are histories: slots of the task that were
   cleaned, and calls of its on_terminate callback.
   */
  datatype Task = Task(cnt: nat, isLimited: bool, isToExit: bool, leaving: bool, cleaned: nat, terminated: nat)

  /**
   Where poll is: the slot it has advanced over but not read yet, the task it is dispatching, or the task it has counted
   down but not looked at again.
   */
  datatype Phase = Idle | Fetched(slot: Slot) | Dispatching(task: nat) | Ending(task: nat)

  datatype Queue = Queue(cap: nat, slots: seq<Slot>, eda: seq<Task>, phase: Phase)

  datatype Step =
    | Post(task: nat, evt: int, force: bool)
    | SetLimited(task: nat, on: bool)
    | Fetch
    | Read
    | Release
    | Settle
    | CleanSlot(pos: nat)
    | FiniTest(task: nat)
    | FiniMark(task: nat)

  const WORD: nat := 256

  function Inc(n: nat): nat { if n == WORD - 1 then 0 else n + 1 }
  function Dec(n: nat): nat { if n == 0 then WORD - 1 else n - 1 }

  // ---------- the steps ----------

  predicate Refused(e: Task, force: bool) {
    e.cnt != 0 && e.isLimited && !force
  }

  /** __vsf_evtq_post */
  function Enqueue(s: Queue, t: nat, evt: int, force: bool): (r: Queue)
    requires t < |s.eda|
  {
    var e := s.eda[t];
    if Refused(e, force) || |s.slots| >= s.cap then s
    else s.(slots := s.slots + [Slot(Some(t), evt)], eda := s.eda[t := e.(cnt := Inc(e.cnt))])
  }

  /** __vsf_eda_terminate */
  function Terminate(e: Task): (r: Task) {
    if e.cnt == 0 then e.(terminated := e.terminated + 1) else e
  }

  /** vsf_evtq_on_eda_fini, its test; the mark, if any, is a step of its own. */
  function ExitTest(e: Task): (r: Task) {
    if e.cnt == 0 then Terminate(e) else e.(leaving := true)
  }

  /** vsf_evtq_poll, after its last protected region. */
  function Settled(e: Task): (r: Task) {
    if e.isToExit then Terminate(e) else e
  }

  predicate Enabled(s: Queue, step: Step) {
    match step
    case Post(t, _, _) => t < |s.eda|
    case SetLimited(t, _) => t < |s.eda|
    case Fetch => s.phase.Idle? && s.slots != []
    case Read => s.phase.Fetched? && (s.phase.slot.eda.Some? ==> s.phase.slot.eda.value < |s.eda|)
    case Release => s.phase.Dispatching? && s.phase.task < |s.eda|
    case Settle => s.phase.Ending? && s.phase.task < |s.eda|
    case CleanSlot(i) =>
      && i < |s.slots| && s.phase.Dispatching? && s.slots[i].eda == Some(s.phase.task) && s.phase.task < |s.eda|
    case FiniTest(t) => t < |s.eda|
    case FiniMark(t) => t < |s.eda| && s.eda[t].leaving
  }

  function Apply(s: Queue, step: Step): (r: Queue)
    requires Enabled(s, step)
  {
    match step
    case Post(t, evt, force) => Enqueue(s, t, evt, force)
    case SetLimited(t, on) => s.(eda := s.eda[t := s.eda[t].(isLimited := on)])
    case Fetch => s.(slots := s.slots[1..], phase := Fetched(s.slots[0]))
    case Read => s.(phase := if s.phase.slot.eda.Some? then Dispatching(s.phase.slot.eda.value) else Idle)
    case Release =>
      var e := s.eda[s.phase.task];
      s.(phase := Ending(s.phase.task), eda := s.eda[s.phase.task := e.(cnt := Dec(e.cnt))])
    case Settle => s.(phase := Idle, eda := s.eda[s.phase.task := Settled(s.eda[s.phase.task])])
    case CleanSlot(i) =>
      var t := s.phase.task;
      s.(slots := s.slots[i := s.slots[i].(eda := None)],
         eda := s.eda[t := s.eda[t].(cleaned := s.eda[t].cleaned + 1)])
    case FiniTest(t) => s.(eda := s.eda[t := ExitTest(s.eda[t])])
    case FiniMark(t) => s.(eda := s.eda[t := s.eda[t].(isToExit := true, leaving := false)])
  }

  // ---------- the count law ----------

  /** Live slots of a task. */
  function Live(slots: seq<Slot>, t: nat): nat {
    if slots == [] then 0 else (if slots[0].eda == Some(t) then 1 else 0) + Live(slots[1..], t)
  }

  /** Poll holds an event of the task. */
  predicate Busy(s: Queue, t: nat) {
    match s.phase
    case Idle => false
    case Fetched(slot) => slot.eda == Some(t)
    case Dispatching(u) => u == t
    case Ending(_) => false
  }

  /** References to a task: live slots, plus one if poll holds one of its events, plus the slots cleaned so far. */
  function Refs(s: Queue, t: nat): nat
    requires t < |s.eda|
  {
    Live(s.slots, t) + (if Busy(s, t) then 1 else 0) + s.eda[t].cleaned
  }

  ghost predicate Inv(s: Queue) {
    Known(s) && forall t :: 0 <= t < |s.eda| ==> s.eda[t].cnt == Refs(s, t) % WORD
  }

  lemma {:induction false} LiveConcat(a: seq<Slot>, b: seq<Slot>, t: nat)
    ensures Live(a + b, t) == Live(a, t) + Live(b, t)
  {
    if a == [] {
      assert a + b == b;
    } else {
      assert (a + b)[1..] == a[1..] + b;
      LiveConcat(a[1..], b, t);
    }
  }

  lemma LiveUpdate(slots: seq<Slot>, i: nat, x: Slot, t: nat)
    requires i < |slots|
    ensures Live(slots[i := x], t) + (if slots[i].eda == Some(t) then 1 else 0)
         == Live(slots, t) + (if x.eda == Some(t) then 1 else 0)
  {
    var a, b := slots[..i], slots[i + 1..];
    assert slots == a + ([slots[i]] + b) && slots[i := x] == a + ([x] + b);
    LiveConcat(a, [slots[i]] + b, t);
    LiveConcat(a, [x] + b, t);
    LiveConcat([slots[i]], b, t);
    LiveConcat([x], b, t);
  }

  lemma {:induction false} LiveBound(slots: seq<Slot>, t: nat)
    ensures Live(slots, t) <= |slots|
    ensures Live(slots, t) == 0 <==> forall i :: 0 <= i < |slots| ==> slots[i].eda != Some(t)
  {
    if slots != [] {
      LiveBound(slots[1..], t);
      assert forall i :: 0 <= i < |slots[1..]| ==> slots[1..][i] == slots[i + 1];
    }
  }

  /** How one step changes the references to a task. */
  lemma StepRefs(s: Queue, step: Step, t: nat)
    requires Inv(s) && Enabled(s, step) && t < |s.eda|
    ensures |Apply(s, step).eda| == |s.eda|
    ensures Refs(Apply(s, step), t) - Refs(s, t) ==
      match step
      case Post(u, _, force) => if u == t && !Refused(s.eda[t], force) && |s.slots| < s.cap then 1 else 0
      case Release => if s.phase.task == t then -1 else 0
      case _ => 0
  {
    match step
    case Post(u, evt, _) =>
      LiveConcat(s.slots, [Slot(Some(u), evt)], t);
      assert Live([Slot(Some(u), evt)], t) == if u == t then 1 else 0;
    case CleanSlot(i) => LiveUpdate(s.slots, i, s.slots[i].(eda := None), t);
    case _ =>
  }

  /** Counting in eight bits. */
  lemma CountMod(n: nat)
    ensures Inc(n % WORD) == (n + 1) % WORD && (n > 0 ==> Dec(n % WORD) == (n - 1) % WORD)
  {
    var q, r := n / 256, n % 256;
    assert n == 256 * q + r && (r == 255 ==> n + 1 == 256 * (q + 1)) && (r == 0 ==> n - 1 == 256 * (q - 1) + 255);
  }

  lemma StepCount(s: Queue, step: Step, t: nat)
    requires Enabled(s, step) && t < |s.eda| && Inv(s)
    ensures |Apply(s, step).eda| == |s.eda| && Apply(s, step).eda[t].cnt == Refs(Apply(s, step), t) % WORD
  {
    StepRefs(s, step, t);
    CountMod(Refs(s, t));
    CountedStep(s, step, t);
  }

  /** How one step changes the count of a task. */
  lemma CountedStep(s: Queue, step: Step, t: nat)
    requires Enabled(s, step) && t < |s.eda|
    ensures Apply(s, step).eda[t].cnt ==
      match step
      case Post(u, _, force) =>
        if u == t && !Refused(s.eda[t], force) && |s.slots| < s.cap then Inc(s.eda[t].cnt) else s.eda[t].cnt
      case Release => if s.phase.task == t then Dec(s.eda[t].cnt) else s.eda[t].cnt
      case _ => s.eda[t].cnt
  {
  }

  /** The task of a slot exists. */
  predicate KnownSlot(slot: Slot, tasks: nat) {
    slot.eda.Some? ==> slot.eda.value < tasks
  }

  /** The tasks that slots and poll refer to exist. */
  ghost predicate Known(s: Queue) {
    && |s.slots| <= s.cap
    && (forall i :: 0 <= i < |s.slots| ==> KnownSlot(s.slots[i], |s.eda|))
    && (s.phase.Fetched? ==> KnownSlot(s.phase.slot, |s.eda|))
    && (s.phase.Dispatching? || s.phase.Ending? ==> s.phase.task < |s.eda|)
  }

  lemma StepKnown(s: Queue, step: Step)
    requires Known(s) && Enabled(s, step)
    ensures Known(Apply(s, step))
  {
  }

  /** Every step keeps the count law: evt_cnt is the number of references, in its eight bits. */
  lemma StepInv(s: Queue, step: Step)
    requires Inv(s) && Enabled(s, step)
    ensures Inv(Apply(s, step))
  {
    StepKnown(s, step);
    forall t | 0 <= t < |s.eda| ensures |Apply(s, step).eda| == |s.eda|
      ensures Apply(s, step).eda[t].cnt == Refs(Apply(s, step), t) % WORD
    {
      StepCount(s, step, t);
    }
  }

  // ---------- whole runs ----------

  ghost predicate Next(s: Queue, step: Step, r: Queue) {
    Inv(s) ==> Enabled(s, step) && r == Apply(s, step)
  }

  /** Step `i` of a run. */
  ghost predicate NextAt(states: seq<Queue>, steps: seq<Step>, i: nat)
    requires i < |steps| < |states|
  {
    Next(states[i], steps[i], states[i + 1])
  }

  ghost predicate IsRun(states: seq<Queue>, steps: seq<Step>) {
    && |states| == |steps| + 1 && Inv(states[0])
    && forall i :: 0 <= i < |steps| ==> NextAt(states, steps, i)
  }

  lemma {:induction false} RunInv(states: seq<Queue>, steps: seq<Step>, n: nat)
    requires IsRun(states, steps) && n <= |steps|
    ensures Inv(states[n]) && |states[n].eda| == |states[0].eda| && states[n].cap == states[0].cap
  {
    if n > 0 {
      RunInv(states, steps, n - 1);
      assert NextAt(states, steps, n - 1);
      StepInv(states[n - 1], steps[n - 1]);
    }
  }

  /** Nothing has been cleaned for the task, and the ring is small enough for an 8-bit count. */
  predicate Exact(s: Queue, t: nat)
    requires t < |s.eda|
  {
    s.cap < WORD - 1 && s.eda[t].cleaned == 0
  }

  /** The count is then exact and fits its eight bits; it is zero just when nothing refers to the task. */
  lemma CountExact(s: Queue, t: nat)
    requires Inv(s) && t < |s.eda| && Exact(s, t)
    ensures s.eda[t].cnt == Live(s.slots, t) + (if Busy(s, t) then 1 else 0) < WORD
    ensures s.eda[t].cnt == 0 <==> !Busy(s, t) && forall i :: 0 <= i < |s.slots| ==> s.slots[i].eda != Some(t)
  {
    LiveBound(s.slots, t);
  }

  /**
   When on_terminate runs, nothing refers to the task (no slot, not poll, no cleaned slot) exactly when there are not so
   many references that the count has wrapped; so never in a ring of at most 2^7 slots without cleaning.
   */
  lemma TerminatesUnreferenced(s: Queue, step: Step, t: nat)
    requires Inv(s) && Enabled(s, step) && t < |s.eda|
    requires Apply(s, step).eda[t].terminated != s.eda[t].terminated
    ensures var r := Apply(s, step);
      && (Refs(r, t) < WORD <==> !Busy(r, t) && r.eda[t].cleaned == 0 && Unqueued(r, t))
      && (Exact(s, t) ==> !Busy(r, t) && Unqueued(r, t))
  {
    StepInv(s, step);
    var r := Apply(s, step);
    LiveBound(r.slots, t);
    assert r.eda[t].cnt == 0;
  }

  predicate Unqueued(s: Queue, t: nat) {
    forall i :: 0 <= i < |s.slots| ==> s.slots[i].eda != Some(t)
  }

  /** The task is told to exit once, at step `f`, and is not posted to afterwards. */
  ghost predicate ExitsOnce(steps: seq<Step>, t: nat, f: nat) {
    && f < |steps| && steps[f] == FiniTest(t)
    && (forall i :: 0 <= i < |steps| && steps[i] == FiniTest(t) ==> i == f)
    && forall i :: f < i < |steps| && steps[i].Post? ==> steps[i].task != t
  }

  /** There are never so many references that the count wraps. */
  ghost predicate Bounded(states: seq<Queue>, t: nat) {
    forall i :: 0 <= i < |states| ==> t < |states[i].eda| && Refs(states[i], t) < WORD
  }

  /** Step `i` of the run cleans a slot of the task. */
  predicate CleansAt(states: seq<Queue>, steps: seq<Step>, i: nat, t: nat)
    requires i < |states| && i < |steps|
  {
    steps[i].CleanSlot? && states[i].phase == Dispatching(t)
  }

  /** Poll refers to the task, or has yet to look at it again. */
  predicate Held(s: Queue, t: nat)
    requires t < |s.eda|
  {
    Refs(s, t) > 0 || s.phase == Ending(t)
  }

  /** Step `i` marks the task when poll is already done with it. */
  predicate MarksLateAt(states: seq<Queue>, steps: seq<Step>, i: nat, t: nat)
    requires i < |states| && i < |steps|
  {
    steps[i] == FiniMark(t) && t < |states[i].eda| && !Held(states[i], t)
  }

  ghost predicate InTime(states: seq<Queue>, steps: seq<Step>, t: nat, n: nat)
    requires n <= |steps| < |states|
  {
    forall i :: 0 <= i < n ==> !MarksLateAt(states, steps, i, t)
  }

  /**
   An exit, before it was asked for and after: on_terminate has not run before; while the mark is missing it has not run
   either; once the task is marked it has run just when the task is no longer held, if the mark came in time.
   */
  ghost predicate ExitState(s: Queue, t: nat, asked: bool, inTime: bool)
    requires t < |s.eda|
  {
    var e := s.eda[t];
    if !asked then e.terminated == 0 && !e.isToExit && !e.leaving
    else if e.leaving then e.terminated == 0 && !e.isToExit
    else if e.isToExit then
      (inTime || !Held(s, t)) && e.terminated == if inTime && !Held(s, t) then 1 else 0
    else e.terminated == 1 && Refs(s, t) == 0
  }

  /**
   Over every run with one exit, no later post and a count that does not wrap, with or without cleaning, and whatever
   comes between the test and the mark of the exit, or between the count-down and the test of poll.
   */
  lemma {:induction false} ExitRuns(states: seq<Queue>, steps: seq<Step>, t: nat, f: nat, n: nat)
    requires IsRun(states, steps) && n <= |steps| && ExitsOnce(steps, t, f) && Bounded(states, t)
    requires ExitState(states[0], t, false, true)
    ensures Inv(states[n]) && t < |states[n].eda| && Refs(states[n], t) < WORD
    ensures ExitState(states[n], t, n > f, InTime(states, steps, t, n))
    ensures !states[n].eda[t].isToExit ==> InTime(states, steps, t, n)
  {
    RunInv(states, steps, n);
    if n > 0 {
      ExitRuns(states, steps, t, f, n - 1);
      assert NextAt(states, steps, n - 1);
      InTimeStep(states, steps, t, n);
      ExitStep(states[n - 1], steps[n - 1], t, n - 1 > f, InTime(states, steps, t, n - 1));
    }
  }

  lemma InTimeStep(states: seq<Queue>, steps: seq<Step>, t: nat, n: nat)
    requires 0 < n <= |steps| < |states|
    ensures InTime(states, steps, t, n) <==> InTime(states, steps, t, n - 1) && !MarksLateAt(states, steps, n - 1, t)
  {
  }

  lemma ExitStep(s: Queue, step: Step, t: nat, asked: bool, inTime: bool)
    requires Inv(s) && Enabled(s, step) && t < |s.eda| && Refs(s, t) < WORD && ExitState(s, t, asked, inTime)
    requires Inv(Apply(s, step)) && |Apply(s, step).eda| == |s.eda| && Refs(Apply(s, step), t) < WORD
    requires asked ==> step != FiniTest(t) && (step.Post? ==> step.task != t)
    requires !s.eda[t].isToExit ==> inTime
    ensures ExitState(Apply(s, step), t, asked || step == FiniTest(t), inTime && !(step == FiniMark(t) && !Held(s, t)))
    ensures s.eda[t].isToExit ==> Apply(s, step).eda[t].isToExit
    ensures step == FiniMark(t) ==> Apply(s, step).eda[t].isToExit
  {
    StepRefs(s, step, t);
  }

  /** The cleaned slots of a task are those its own clean steps blanked. */
  lemma {:induction false} CleanedHistory(states: seq<Queue>, steps: seq<Step>, t: nat, n: nat)
    requires IsRun(states, steps) && n <= |steps| && t < |states[0].eda| && states[0].eda[t].cleaned == 0
    ensures t < |states[n].eda|
    ensures states[n].eda[t].cleaned == 0 <==> forall i :: 0 <= i < n ==> !CleansAt(states, steps, i, t)
  {
    RunInv(states, steps, n);
    if n > 0 {
      CleanedHistory(states, steps, t, n - 1);
      RunInv(states, steps, n - 1);
      assert NextAt(states, steps, n - 1);
      CleanedStep(states[n - 1], steps[n - 1], t);
      assert CleansAt(states, steps, n - 1, t) <==> steps[n - 1].CleanSlot? && states[n - 1].phase == Dispatching(t);
    }
  }

  lemma CleanedStep(s: Queue, step: Step, t: nat)
    requires Enabled(s, step) && t < |s.eda|
    ensures Apply(s, step).eda[t].cleaned ==
      s.eda[t].cleaned + if step.CleanSlot? && s.phase == Dispatching(t) then 1 else 0
  {
  }

  /**
   When an exit is honoured: over such a run, once the task is marked or was found unreferenced, and nothing is queued
   or running for it, on_terminate has run (once) if and only if none of its slots was ever cleaned and the mark was not
   too late.
   */
  lemma TerminatesExactly(states: seq<Queue>, steps: seq<Step>, t: nat, f: nat, n: nat)
    requires IsRun(states, steps) && f < n <= |steps| && ExitsOnce(steps, t, f) && Bounded(states, t)
    requires ExitState(states[0], t, false, true) && states[0].eda[t].cleaned == 0
    requires !states[n].eda[t].leaving
    requires !Busy(states[n], t) && Live(states[n].slots, t) == 0 && states[n].phase != Ending(t)
    ensures states[n].eda[t].terminated <= 1
    ensures states[n].eda[t].terminated == 1
       <==> (forall i :: 0 <= i < n ==> !CleansAt(states, steps, i, t)) && InTime(states, steps, t, n)
  {
    ExitRuns(states, steps, t, f, n);
    CleanedHistory(states, steps, t, n);
  }

  lemma StaysExact(states: seq<Queue>, steps: seq<Step>, t: nat, n: nat)
    requires IsRun(states, steps) && n <= |steps| && t < |states[0].eda| && Exact(states[0], t)
    requires forall i :: 0 <= i < |steps| ==> !CleansAt(states, steps, i, t)
    ensures t < |states[n].eda| && Exact(states[n], t) && Refs(states[n], t) < WORD
  {
    RunInv(states, steps, n);
    CleanedHistory(states, steps, t, n);
    LiveBound(states[n].slots, t);
  }

  /**
   Without cleaning, in a ring of at most 2^7 slots and with a mark in time: on_terminate runs at most once, never while
   something refers to the task, and it has run as soon as nothing does and poll is done with the task.
   */
  lemma TerminatesOnce(states: seq<Queue>, steps: seq<Step>, t: nat, f: nat, n: nat)
    requires IsRun(states, steps) && n <= |steps| && ExitsOnce(steps, t, f)
    requires forall i :: 0 <= i < |steps| ==> !CleansAt(states, steps, i, t)
    requires t < |states[0].eda| && Exact(states[0], t) && ExitState(states[0], t, false, true)
    requires InTime(states, steps, t, |steps|)
    ensures t < |states[n].eda|
    ensures var s := states[n]; var e := s.eda[t];
      && e.terminated <= 1 && (e.terminated == 1 ==> n > f && Refs(s, t) == 0)
      && (n > f && !e.leaving && !Held(s, t) ==> e.terminated == 1)
  {
    forall i | 0 <= i < |states| ensures t < |states[i].eda| && Refs(states[i], t) < WORD {
      StaysExact(states, steps, t, i);
    }
    ExitRuns(states, steps, t, f, n);
  }

  // ---------- where the hypotheses of the count law end ----------

  /** A cleaned slot is never counted down: as long as the count does not wrap, on_terminate does not run any more. */
  lemma {:induction false} CleanedNeverTerminates(states: seq<Queue>, steps: seq<Step>, t: nat, i: nat, n: nat)
    requires IsRun(states, steps) && i <= n <= |steps| && Bounded(states, t)
    requires t < |states[i].eda| && states[i].eda[t].cleaned > 0
    ensures t < |states[n].eda| && states[n].eda[t].cleaned > 0
    ensures states[n].eda[t].terminated == states[i].eda[t].terminated
  {
    RunInv(states, steps, n);
    if n > i {
      CleanedNeverTerminates(states, steps, t, i, n - 1);
      RunInv(states, steps, n - 1);
      assert NextAt(states, steps, n - 1);
      CleanedStep(states[n - 1], steps[n - 1], t);
      StepRefs(states[n - 1], steps[n - 1], t);
      assert Refs(states[n], t) < WORD && Refs(states[n - 1], t) < WORD;
    }
  }

  /** A task is dispatched, gets another event, cleans it, and is told to exit. */
  function CleaningStep(i: nat): Step {
    match i
    case 0 => Post(0, 7, false)
    case 1 => Fetch
    case 2 => Read
    case 3 => Post(0, 7, false)
    case 4 => CleanSlot(0)
    case 5 => FiniTest(0)
    case 6 => FiniMark(0)
    case 7 => Release
    case _ => Settle
  }

  function CleaningState(i: nat): Queue {
    var x, blank := Slot(Some(0), 7), Slot(None, 7);
    match i
    case 0 => Queue(3, [], [Task(0, false, false, false, 0, 0)], Idle)
    case 1 => Queue(3, [x], [Task(1, false, false, false, 0, 0)], Idle)
    case 2 => Queue(3, [], [Task(1, false, false, false, 0, 0)], Fetched(x))
    case 3 => Queue(3, [], [Task(1, false, false, false, 0, 0)], Dispatching(0))
    case 4 => Queue(3, [x], [Task(2, false, false, false, 0, 0)], Dispatching(0))
    case 5 => Queue(3, [blank], [Task(2, false, false, false, 1, 0)], Dispatching(0))
    case 6 => Queue(3, [blank], [Task(2, false, false, true, 1, 0)], Dispatching(0))
    case 7 => Queue(3, [blank], [Task(2, false, true, false, 1, 0)], Dispatching(0))
    case 8 => Queue(3, [blank], [Task(1, false, true, false, 1, 0)], Ending(0))
    case _ => Queue(3, [blank], [Task(1, false, true, false, 1, 0)], Idle)
  }

  lemma CleaningNext(i: nat)
    requires i < 9
    ensures Next(CleaningState(i), CleaningStep(i), CleaningState(i + 1))
  {
    if i < 5 { CleaningFirst(i); } else { CleaningSecond(i); }
  }

  lemma CleaningRefs(i: nat)
    ensures |CleaningState(i).eda| == 1 && Refs(CleaningState(i), 0) <= 2
  {
    assert Live([Slot(Some(0), 7)], 0) == 1 && Live([Slot(None, 7)], 0) == 0;
  }

  lemma CleaningFirst(i: nat)
    requires i < 5
    ensures Enabled(CleaningState(i), CleaningStep(i))
    ensures CleaningState(i + 1) == Apply(CleaningState(i), CleaningStep(i))
  {
  }

  lemma CleaningSecond(i: nat)
    requires 5 <= i < 9
    ensures Enabled(CleaningState(i), CleaningStep(i))
    ensures CleaningState(i + 1) == Apply(CleaningState(i), CleaningStep(i))
  {
  }

  /** Such a run from an empty ring: nothing is queued or running at its end, and the task has not terminated. */
  lemma CleanedBlocksExit() returns (states: seq<Queue>, steps: seq<Step>)
    ensures IsRun(states, steps) && Bounded(states, 0) && ExitsOnce(steps, 0, 5)
    ensures states[0] == Queue(3, [], [Task(0, false, false, false, 0, 0)], Idle)
    ensures var r := states[|steps|];
      !Busy(r, 0) && Live(r.slots, 0) == 0 && r.eda == [Task(1, false, true, false, 1, 0)]
  {
    states, steps := seq(10, i requires i >= 0 => CleaningState(i)), seq(9, i requires i >= 0 => CleaningStep(i));
    forall i | 0 <= i < 9 ensures NextAt(states, steps, i) { CleaningNext(i); }
    forall i | 0 <= i < 10 ensures |states[i].eda| == 1 && Refs(states[i], 0) <= 2 { CleaningRefs(i); }
    assert Live([Slot(None, 7)], 0) == 0;
  }

  /** A task is dispatched once and told to exit from below; poll is done with it between the test and the mark. */
  function LateStep(i: nat): Step {
    match i
    case 0 => Post(0, 7, false)
    case 1 => Fetch
    case 2 => Read
    case 3 => FiniTest(0)
    case 4 => Release
    case 5 => Settle
    case _ => FiniMark(0)
  }

  function LateState(i: nat): Queue {
    match i
    case 0 => Queue(3, [], [Task(0, false, false, false, 0, 0)], Idle)
    case 1 => Queue(3, [Slot(Some(0), 7)], [Task(1, false, false, false, 0, 0)], Idle)
    case 2 => Queue(3, [], [Task(1, false, false, false, 0, 0)], Fetched(Slot(Some(0), 7)))
    case 3 => Queue(3, [], [Task(1, false, false, false, 0, 0)], Dispatching(0))
    case 4 => Queue(3, [], [Task(1, false, false, true, 0, 0)], Dispatching(0))
    case 5 => Queue(3, [], [Task(0, false, false, true, 0, 0)], Ending(0))
    case 6 => Queue(3, [], [Task(0, false, false, true, 0, 0)], Idle)
    case _ => Queue(3, [], [Task(0, false, true, false, 0, 0)], Idle)
  }

  lemma LateNext(i: nat)
    requires i < 7
    ensures Next(LateState(i), LateStep(i), LateState(i + 1))
  {
  }

  lemma LateRefs(i: nat)
    ensures |LateState(i).eda| == 1 && Refs(LateState(i), 0) <= 1
  {
    assert Live([Slot(Some(0), 7)], 0) == 1;
  }

  /** Such a run from an empty ring, without cleaning: the exit is lost, and the task never terminates. */
  lemma LateMarkLosesExit() returns (states: seq<Queue>, steps: seq<Step>)
    ensures IsRun(states, steps) && Bounded(states, 0) && ExitsOnce(steps, 0, 3)
    ensures states[0] == Queue(3, [], [Task(0, false, false, false, 0, 0)], Idle)
    ensures states[|steps|] == Queue(3, [], [Task(0, false, true, false, 0, 0)], Idle)
  {
    states, steps := seq(8, i requires i >= 0 => LateState(i)), seq(7, i requires i >= 0 => LateStep(i));
    forall i | 0 <= i < 7 ensures NextAt(states, steps, i) { LateNext(i); }
    forall i | 0 <= i < 8 ensures |states[i].eda| == 1 && Refs(states[i], 0) <= 1 { LateRefs(i); }
  }

  function Repeat(k: nat): seq<Slot> {
    if k == 0 then [] else Repeat(k - 1) + [Slot(Some(0), 0)]
  }

  /** A ring of bitsize 8 in the middle of a dispatch of task 0, with `k` more events for it queued. */
  function Filling(k: nat): Queue {
    Queue(WORD - 1, Repeat(k), [Task((k + 1) % WORD, false, false, false, 0, 0)], Dispatching(0))
  }

  lemma {:induction false} RepeatLive(k: nat)
    ensures |Repeat(k)| == k && Live(Repeat(k), 0) == k
    ensures forall i :: 0 <= i < k ==> Repeat(k)[i] == Slot(Some(0), 0)
  {
    if k > 0 {
      RepeatLive(k - 1);
      LiveConcat(Repeat(k - 1), [Slot(Some(0), 0)], 0);
    }
  }

  lemma FillingStep(k: nat)
    requires k < WORD - 1
    ensures Inv(Filling(k)) && Next(Filling(k), Post(0, 0, true), Filling(k + 1))
  {
    RepeatLive(k);
  }

  /** One event is posted and dispatched, 255 more are posted, and the task is told to exit. */
  function WrapStep(i: nat): Step {
    if i == 1 then Fetch else if i == 2 then Read else if i == WORD + 2 then FiniTest(0) else Post(0, 0, true)
  }

  function WrapState(i: nat): Queue {
    var x, e := Slot(Some(0), 0), Task(1, false, false, false, 0, 0);
    if i == 0 then Queue(WORD - 1, [], [e.(cnt := 0)], Idle)
    else if i == 1 then Queue(WORD - 1, [x], [e], Idle)
    else if i == 2 then Queue(WORD - 1, [], [e], Fetched(x))
    else if i <= WORD + 2 then Filling(i - 3)
    else Filling(WORD - 1).(eda := [e.(cnt := 0, terminated := 1)])
  }

  lemma WrapsNext(i: nat)
    requires i <= WORD + 2
    ensures Next(WrapState(i), WrapStep(i), WrapState(i + 1))
  {
    if 3 <= i < WORD + 2 { FillingStep(i - 3); }
  }

  /**
   With bitsize 8 the bound fails: 255 queued events and one being dispatched make the count wrap to zero, and a
   task told to exit then terminates while all of them still refer to it.
   */
  lemma EightBitRingWraps() returns (states: seq<Queue>, steps: seq<Step>)
    ensures IsRun(states, steps) && |steps| > 0 && steps[|steps| - 1] == FiniTest(0)
    ensures states[0] == Queue(WORD - 1, [], [Task(0, false, false, false, 0, 0)], Idle)
    ensures var r := states[|steps|];
      r.eda == [Task(0, false, false, false, 0, 1)] && Busy(r, 0) && Live(r.slots, 0) == WORD - 1
  {
    states, steps := seq(WORD + 4, i requires i >= 0 => WrapState(i)), seq(WORD + 3, i requires i >= 0 => WrapStep(i));
    forall i | 0 <= i < WORD + 3 ensures NextAt(states, steps, i) { WrapsNext(i); }
    RepeatLive(WORD - 1);
  }
}
