/** The list queue and the array queue treat a task the same way: both implement `TaskDelivery`. */
module EventQueueAgreement {
  import opened Basics
  import opened TaskDelivery
  import L = EventQueueList
  import A = EventQueueArray

  // ---------- the list queue ----------

  function Events(nodes: seq<L.Node>): (r: seq<int>)
    ensures |r| == |nodes| && forall i :: 0 <= i < |r| ==> r[i] == nodes[i].evt
  {
    seq(|nodes|, i requires 0 <= i < |nodes| => nodes[i].evt)
  }

  function ListView(s: L.Kernel, t: nat): View
    requires L.Shape(s) && t < |s.eda|
  {
    View(Events(s.eda[t].evts), L.IsRunning(s, t), s.eda[t].isLimited)
  }

  /** What a step of the list queue is to task `t`, and what the code answers. */
  function ListInput(s: L.Kernel, step: L.Step, t: nat): seq<Input>
    requires L.Shape(s) && L.Enabled(s, step) && t < |s.eda|
  {
    match step
    case Post(u, _, evt, force) => if u == t then [Posted(evt, force)] else []
    case SetLimited(u, on) => if u == t then [Limited(on)] else []
    case PollBegin(q) => if s.ready[q][0] == t then [Begun] else []
    case PollEnd(q) => if s.cur[q].value == t then [Ended] else []
    case _ => []
  }

  function ListOutput(s: L.Kernel, step: L.Step, t: nat): Output
    requires L.Inv(s) && L.Enabled(s, step) && t < |s.eda|
  {
    match step
    case Post(u, _, _, force) => if L.Refused(s.eda[t], force) then Refused else Accepted
    case PollBegin(q) => if s.eda[t].evts != [] then Delivered(s.eda[t].evts[0].evt) else Quiet
    case _ => Quiet
  }

  /** The step neither cleans events of the task nor starts or ends it. */
  predicate ListPlain(step: L.Step, t: nat) {
    match step
    case Init(u, _) => u != t
    case Unlink(u, _) => u != t
    case Fini(u) => u != t
    case _ => true
  }

  lemma ListReady(s: L.Kernel, t: nat)
    requires L.Inv(s) && t < |s.eda|
    ensures s.eda[t].isReady <==> Ready(ListView(s, t))
  {
    if L.IsRunning(s, t) { assert t in s.ready[s.eda[t].curPrio]; }
  }

  lemma ListStep(s: L.Kernel, step: L.Step, t: nat)
    requires L.Inv(s) && L.Enabled(s, step) && t < |s.eda| && ListPlain(step, t) && !s.eda[t].isToExit
    ensures var r := L.Apply(s, step); var i := ListInput(s, step, t); var v := ListView(s, t);
      && L.Inv(r) && !r.eda[t].isToExit
      && (i == [] ==> ListView(r, t) == v)
      && (i != [] ==> Allowed(v, i[0]) && React(v, i[0]) == (ListView(r, t), ListOutput(s, step, t)))
  {
    L.StepInv(s, step);
    var r := L.Apply(s, step);
    match step
    case PollEnd(q) => ListEnd(s, q, t);
    case PollBegin(q) => ListBegin(s, q, t);
    case Post(u, id, evt, force) => ListPost(s, u, id, evt, force, t);
    case SetPriority(u, p) => ListRequest(s, u, p, t);
    case _ =>
  }

  lemma ListPost(s: L.Kernel, u: nat, id: nat, evt: int, force: bool, t: nat)
    requires L.Inv(s) && t < |s.eda| && u < |s.eda| && id in s.flight
    ensures var r := L.Enqueue(s, u, id, evt, force); var v := ListView(s, t);
      && L.Shape(r) && r.eda[t].isToExit == s.eda[t].isToExit
      && (u != t ==> ListView(r, t) == v)
      && (u == t ==> React(v, Posted(evt, force)) ==
                     (ListView(r, t), if L.Refused(s.eda[t], force) then Refused else Accepted))
  {
    ListReady(s, t);
    var r := L.Enqueue(s, u, id, evt, force);
    if u == t && !L.Refused(s.eda[t], force) {
      assert Events(r.eda[t].evts) == Events(s.eda[t].evts) + [evt];
    }
  }

  lemma ListRequest(s: L.Kernel, u: nat, p: nat, t: nat)
    requires L.Inv(s) && t < |s.eda| && u < |s.eda| && p < |s.ready| && L.Inv(L.RequestPriority(s, u, p))
    ensures ListView(L.RequestPriority(s, u, p), t) == ListView(s, t)
    ensures L.RequestPriority(s, u, p).eda[t].isToExit == s.eda[t].isToExit
  {
    if s.cur[p] == Some(u) {
      assert u in s.ready[p];
      assert L.Belongs(s, p, u);
    }
  }

  lemma ListBegin(s: L.Kernel, q: nat, t: nat)
    requires L.Inv(s) && L.Enabled(s, L.PollBegin(q)) && t < |s.eda|
    ensures var r := L.Begin(s, q); var v := ListView(s, t);
      && L.Shape(r) && r.eda[t].isToExit == s.eda[t].isToExit
      && (s.ready[q][0] != t ==> ListView(r, t) == v)
      && (s.ready[q][0] == t ==>
            Allowed(v, Begun) && React(v, Begun) == (ListView(r, t), Delivered(s.eda[t].evts[0].evt)))
  {
    assert s.ready[q][0] in s.ready[q];
    assert L.Belongs(s, q, s.ready[q][0]);
    if s.ready[q][0] == t {
      assert Events(L.Begin(s, q).eda[t].evts) == Events(s.eda[t].evts)[1..];
    }
  }

  lemma ListEnd(s: L.Kernel, q: nat, t: nat)
    requires L.Inv(s) && L.Enabled(s, L.PollEnd(q)) && t < |s.eda| && !s.eda[t].isToExit
    ensures var r := L.End(s, q); var v := ListView(s, t);
      && L.Shape(r) && !r.eda[t].isToExit
      && (s.cur[q].value != t ==> ListView(r, t) == v)
      && (s.cur[q].value == t ==> Allowed(v, Ended) && React(v, Ended) == (ListView(r, t), Quiet))
  {
    L.EndEffect(s, q);
    L.DispatchEnd(s, q);
    L.EndInv(s, q);
    var u := s.cur[q].value;
    assert u in s.ready[q];
    assert L.Belongs(s, q, u);
  }

  // ---------- the array queue ----------

  function EventsOf(slots: seq<A.Slot>, t: nat): seq<int> {
    if slots == [] then []
    else (if slots[0].eda == Some(t) then [slots[0].evt] else []) + EventsOf(slots[1..], t)
  }

  function ArrayView(s: A.Queue, t: nat): View
    requires t < |s.eda|
  {
    View(EventsOf(s.slots, t), A.Busy(s, t), s.eda[t].isLimited)
  }

  function ArrayInput(s: A.Queue, step: A.Step, t: nat): seq<Input>
    requires A.Enabled(s, step) && t < |s.eda|
  {
    match step
    case Post(u, evt, force) => if u == t then [Posted(evt, force)] else []
    case SetLimited(u, on) => if u == t then [Limited(on)] else []
    case Fetch => if s.slots[0].eda == Some(t) then [Begun] else []
    case Release => if s.phase.task == t then [Ended] else []
    case _ => []
  }

  /** The answer for a task that is not to exit; one that is gets no event (`EventQueueArrayCode.Ring.ReadSlot`). */
  function ArrayOutput(s: A.Queue, step: A.Step, t: nat): Output
    requires A.Enabled(s, step) && t < |s.eda|
  {
    match step
    case Post(u, _, force) => if A.Refused(s.eda[t], force) then Refused else Accepted
    case Fetch => Delivered(s.slots[0].evt)
    case _ => Quiet
  }

  /** The step neither cleans nor ends the task, and is no post to it that finds the ring exhausted. */
  predicate ArrayPlain(s: A.Queue, step: A.Step, t: nat) {
    match step
    case Post(u, _, _) => u == t ==> |s.slots| < s.cap
    case CleanSlot(_) => s.phase != A.Dispatching(t)
    case FiniTest(u) => u != t
    case FiniMark(u) => u != t
    case _ => true
  }

  lemma {:induction false} EventsOfConcat(a: seq<A.Slot>, b: seq<A.Slot>, t: nat)
    ensures EventsOf(a + b, t) == EventsOf(a, t) + EventsOf(b, t)
  {
    if a == [] {
      assert a + b == b;
    } else {
      var x := if a[0].eda == Some(t) then [a[0].evt] else [];
      assert (a + b)[0] == a[0] && (a + b)[1..] == a[1..] + b;
      EventsOfConcat(a[1..], b, t);
      assert x + (EventsOf(a[1..], t) + EventsOf(b, t)) == (x + EventsOf(a[1..], t)) + EventsOf(b, t);
    }
  }

  lemma {:induction false} EventsOfSize(slots: seq<A.Slot>, t: nat)
    ensures |EventsOf(slots, t)| == A.Live(slots, t)
  {
    if slots != [] { EventsOfSize(slots[1..], t); }
  }

  /** Blanking another task's slot does not change the events of this one. */
  lemma EventsOfBlank(slots: seq<A.Slot>, i: nat, t: nat)
    requires i < |slots| && slots[i].eda != Some(t)
    ensures EventsOf(slots[i := slots[i].(eda := None)], t) == EventsOf(slots, t)
  {
    var a, b, x := slots[..i], slots[i + 1..], slots[i].(eda := None);
    assert slots == a + ([slots[i]] + b) && slots[i := x] == a + ([x] + b);
    EventsOfConcat(a, [slots[i]] + b, t);
    EventsOfConcat(a, [x] + b, t);
    EventsOfConcat([slots[i]], b, t);
    EventsOfConcat([x], b, t);
  }

  lemma ArrayReady(s: A.Queue, t: nat)
    requires A.Inv(s) && t < |s.eda| && A.Exact(s, t)
    ensures s.eda[t].cnt != 0 <==> Ready(ArrayView(s, t))
  {
    A.CountExact(s, t);
    EventsOfSize(s.slots, t);
  }

  lemma ArrayStep(s: A.Queue, step: A.Step, t: nat)
    requires A.Inv(s) && A.Enabled(s, step) && t < |s.eda| && ArrayPlain(s, step, t) && A.Exact(s, t)
    requires !s.eda[t].isToExit
    ensures var r := A.Apply(s, step); var i := ArrayInput(s, step, t); var v := ArrayView(s, t);
      && |r.eda| == |s.eda| && A.Exact(r, t) && !r.eda[t].isToExit
      && (i == [] ==> ArrayView(r, t) == v)
      && (i != [] ==> Allowed(v, i[0]) && React(v, i[0]) == (ArrayView(r, t), ArrayOutput(s, step, t)))
  {
    match step
    case Post(u, evt, force) =>
      ArrayReady(s, t);
      EventsOfConcat(s.slots, [A.Slot(Some(u), evt)], t);
      assert EventsOf([A.Slot(Some(u), evt)], t) == if u == t then [evt] else [];
    case CleanSlot(i) => EventsOfBlank(s.slots, i, t);
    case _ =>
  }

  // ---------- whole runs ----------

  /** The history of a task in a run of the list queue: what reached it, and what the code answered. */
  ghost function ListHistory(states: seq<L.Kernel>, steps: seq<L.Step>, t: nat, n: nat): (seq<Input>, seq<Output>)
    requires L.IsRun(states, steps) && n <= |steps| && t < |states[0].eda|
  {
    if n == 0 then ([], [])
    else
      L.RunInv(states, steps, n - 1);
      assert L.NextAt(states, steps, n - 1);
      var (ins, outs) := ListHistory(states, steps, t, n - 1);
      var i := ListInput(states[n - 1], steps[n - 1], t);
      if i == [] then (ins, outs) else (ins + i, outs + [ListOutput(states[n - 1], steps[n - 1], t)])
  }

  ghost function ArrayHistory(states: seq<A.Queue>, steps: seq<A.Step>, t: nat, n: nat): (seq<Input>, seq<Output>)
    requires A.IsRun(states, steps) && n <= |steps| && t < |states[0].eda|
  {
    if n == 0 then ([], [])
    else
      A.RunInv(states, steps, n - 1);
      assert A.NextAt(states, steps, n - 1);
      var (ins, outs) := ArrayHistory(states, steps, t, n - 1);
      var i := ArrayInput(states[n - 1], steps[n - 1], t);
      if i == [] then (ins, outs) else (ins + i, outs + [ArrayOutput(states[n - 1], steps[n - 1], t)])
  }

  lemma Extend(v: View, ins: seq<Input>, i: Input)
    ensures After(v, ins + [i]) == React(After(v, ins), i).0
    ensures Outputs(v, ins + [i]) == Outputs(v, ins) + [React(After(v, ins), i).1]
  {
    assert (ins + [i])[..|ins|] == ins;
  }

  /** What reaches the task in one step, if anything. */
  lemma ExtendStep(v: View, ins: seq<Input>, i: seq<Input>, out: Output, after: View)
    requires |i| <= 1 && (i == [] ==> after == After(v, ins))
    requires i != [] ==> React(After(v, ins), i[0]) == (after, out)
    ensures After(v, ins + i) == after
    ensures Outputs(v, ins + i) == if i == [] then Outputs(v, ins) else Outputs(v, ins) + [out]
  {
    if i == [] {
      assert ins + i == ins;
    } else {
      assert i == [i[0]];
      Extend(v, ins, i[0]);
    }
  }

  lemma {:induction false} ListRun(states: seq<L.Kernel>, steps: seq<L.Step>, t: nat, n: nat)
    requires L.IsRun(states, steps) && n <= |steps| && t < |states[0].eda| && !states[0].eda[t].isToExit
    requires forall i :: 0 <= i < |steps| ==> ListPlain(steps[i], t)
    ensures L.Inv(states[n]) && |states[n].eda| == |states[0].eda| && !states[n].eda[t].isToExit
    ensures var (ins, outs) := ListHistory(states, steps, t, n); var v := ListView(states[0], t);
      After(v, ins) == ListView(states[n], t) && Outputs(v, ins) == outs
  {
    L.RunInv(states, steps, n);
    if n > 0 {
      ListRun(states, steps, t, n - 1);
      var s, step := states[n - 1], steps[n - 1];
      assert L.NextAt(states, steps, n - 1);
      ListStep(s, step, t);
      var (ins, _) := ListHistory(states, steps, t, n - 1);
      var i, out := ListInput(s, step, t), ListOutput(s, step, t);
      ExtendStep(ListView(states[0], t), ins, i, out, ListView(states[n], t));
    }
  }

  lemma {:induction false} ArrayRun(states: seq<A.Queue>, steps: seq<A.Step>, t: nat, n: nat)
    requires A.IsRun(states, steps) && n <= |steps| && t < |states[0].eda| && A.Exact(states[0], t)
    requires !states[0].eda[t].isToExit
    requires forall i :: 0 <= i < |steps| ==> ArrayPlain(states[i], steps[i], t)
    ensures A.Inv(states[n]) && |states[n].eda| == |states[0].eda|
    ensures A.Exact(states[n], t) && !states[n].eda[t].isToExit
    ensures var (ins, outs) := ArrayHistory(states, steps, t, n); var v := ArrayView(states[0], t);
      After(v, ins) == ArrayView(states[n], t) && Outputs(v, ins) == outs
  {
    A.RunInv(states, steps, n);
    if n > 0 {
      ArrayRun(states, steps, t, n - 1);
      var s, step := states[n - 1], steps[n - 1];
      assert A.NextAt(states, steps, n - 1);
      ArrayStep(s, step, t);
      var (ins, _) := ArrayHistory(states, steps, t, n - 1);
      var i, out := ArrayInput(s, step, t), ArrayOutput(s, step, t);
      ExtendStep(ArrayView(states[0], t), ins, i, out, ArrayView(states[n], t));
    }
  }

  /**
   Agreement: take any run of the list queue and any run of the array queue, and a task in each that starts in the
   same situation and sees the same posts, limits and dispatches, without cleaning, exit or exhaustion. Then both
   queues answer every one of them alike (accepted, refused, delivered event), the task is ready in the list queue
   exactly when its count in the array queue is not zero, and its accepted events have been delivered in the order
   of posting, each once, up to the ones still pending.
   */
  lemma QueuesAgree(ls: seq<L.Kernel>, lsteps: seq<L.Step>, t: nat, as': seq<A.Queue>, asteps: seq<A.Step>, u: nat)
    requires L.IsRun(ls, lsteps) && t < |ls[0].eda| && !ls[0].eda[t].isToExit
    requires forall i :: 0 <= i < |lsteps| ==> ListPlain(lsteps[i], t)
    requires A.IsRun(as', asteps) && u < |as'[0].eda| && A.Exact(as'[0], u) && !as'[0].eda[u].isToExit
    requires forall i :: 0 <= i < |asteps| ==> ArrayPlain(as'[i], asteps[i], u)
    requires ListView(ls[0], t) == ArrayView(as'[0], u)
    requires ListHistory(ls, lsteps, t, |lsteps|).0 == ArrayHistory(as', asteps, u, |asteps|).0
    ensures ListHistory(ls, lsteps, t, |lsteps|).1 == ArrayHistory(as', asteps, u, |asteps|).1
    ensures t < |ls[|lsteps|].eda| && u < |as'[|asteps|].eda|
    ensures ls[|lsteps|].eda[t].isReady <==> as'[|asteps|].eda[u].cnt != 0
    ensures var (ins, outs) := ListHistory(ls, lsteps, t, |lsteps|);
      && |ins| == |outs|
      && ListView(ls[0], t).pending + AcceptedEvents(ins, outs)
         == DeliveredEvents(outs) + Events(ls[|lsteps|].eda[t].evts)
      && Events(ls[|lsteps|].eda[t].evts) == EventsOf(as'[|asteps|].slots, u)
  {
    var n, m := |lsteps|, |asteps|;
    ListRun(ls, lsteps, t, n);
    ArrayRun(as', asteps, u, m);
    ListReady(ls[n], t);
    ArrayReady(as'[m], u);
    DeliveredInOrder(ListView(ls[0], t), ListHistory(ls, lsteps, t, n).0);
  }
}
