/**
 CPU time accounting across nested software interrupts: __vsf_os_evtq_swi_handler (source/kernel/vsf_os.c) and
 __vsf_dispatch_evt (source/kernel/vsf_eda.c).
 */
module TickAccounting {
  import opened Basics

  /**
   What happens on the CPU: time passes, the handler of a queue comes in, or (inside a handler) an event is dispatched
   to a task. Handlers nest as interrupts preempt each other.
   */
  datatype Act = Tick(n: nat) | Swi(queue: nat, acts: seq<Act>) | Dispatch(task: nat, acts: seq<Act>)

  /** Ticks from beginning to end. */
  function Wall(acts: seq<Act>): nat {
    if acts == [] then 0 else WallOf(acts[0]) + Wall(acts[1..])
  }

  function WallOf(a: Act): nat {
    match a
    case Tick(n) => n
    case Swi(_, acts) => Wall(acts)
    case Dispatch(_, acts) => Wall(acts)
  }

  /** Ticks spent in the handlers that come in directly. */
  function Direct(acts: seq<Act>): nat {
    if acts == [] then 0 else (if acts[0].Swi? then WallOf(acts[0]) else 0) + Direct(acts[1..])
  }

  datatype Charge = Charge(task: nat, ticks: int)

  /** What every dispatch should be charged, in the order in which they end: its wall time less the direct handlers. */
  function Charges(acts: seq<Act>): seq<Charge> {
    if acts == [] then [] else ChargesOf(acts[0]) + Charges(acts[1..])
  }

  function ChargesOf(a: Act): seq<Charge> {
    match a
    case Tick(_) => []
    case Swi(_, acts) => Charges(acts)
    case Dispatch(t, acts) => Charges(acts) + [Charge(t, Wall(acts) - Direct(acts))]
  }

  /** Queues whose handlers come in, at any depth. */
  function Queues(acts: seq<Act>): set<nat> {
    if acts == [] then {} else QueuesOf(acts[0]) + Queues(acts[1..])
  }

  function QueuesOf(a: Act): set<nat> {
    match a
    case Tick(_) => {}
    case Swi(q, acts) => {q} + Queues(acts)
    case Dispatch(_, acts) => Queues(acts)
  }

  /** A handler is only preempted by other queues, and events are dispatched by handlers only. */
  predicate WellNested(acts: seq<Act>, inDispatch: bool) {
    acts == [] || (WellNestedOf(acts[0], inDispatch) && WellNested(acts[1..], inDispatch))
  }

  predicate WellNestedOf(a: Act, inDispatch: bool) {
    match a
    case Tick(_) => true
    case Swi(q, acts) => q !in Queues(acts) && WellNested(acts, false)
    case Dispatch(_, acts) => !inDispatch && WellNested(acts, true)
  }

  /** vsf_evtq_ctx_t, the part used for timing. */
  datatype Ctx = Ctx(isTiming: bool, preempted: nat)

  class Cpu {
    var clock: nat
    /** The current queue, none when idle or outside the kernel. */
    var cur: Option<nat>
    var ctx: map<nat, Ctx>
    var charged: seq<Charge>

    constructor (queues: set<nat>)
      ensures cur == None && ctx.Keys == queues && charged == [] && clock == 0
    {
      clock, cur, charged := 0, None, [];
      ctx := map q | q in queues :: Ctx(false, 0);
    }

    /** __vsf_os_evtq_swi_handler */
    method SwiHandler(q: nat, acts: seq<Act>)
      requires q in ctx && Queues(acts) <= ctx.Keys && WellNestedOf(Swi(q, acts), false)
      requires cur.Some? ==> cur.value in ctx && cur.value != q && cur.value !in Queues(acts)
      requires !ctx[q].isTiming && forall p :: p in Queues(acts) ==> !ctx[p].isTiming
      modifies this
      ensures clock == old(clock) + Wall(acts) && cur == old(cur) && charged == old(charged) + Charges(acts)
      ensures ctx.Keys == old(ctx).Keys
      ensures cur.Some? ==> ctx[cur.value] == old(ctx[cur.value]).(preempted :=
        old(ctx[cur.value]).preempted + if old(ctx[cur.value]).isTiming then Wall(acts) else 0)
      ensures forall p :: p in ctx && Some(p) != cur && p != q && p !in Queues(acts) ==> ctx[p] == old(ctx)[p]
      ensures !ctx[q].isTiming && forall p :: p in Queues(acts) ==> !ctx[p].isTiming
      decreases acts, 2
    {
      var pold := cur;
      cur := Some(q);
      var start := 0;
      if pold.Some? && ctx[pold.value].isTiming {
        start := clock;
      }
      Perform(q, acts, false);
      if pold.Some? && ctx[pold.value].isTiming {
        ctx := ctx[pold.value := ctx[pold.value].(preempted := ctx[pold.value].preempted + (clock - start))];
      }
      cur := pold;
    }

    /** __vsf_dispatch_evt */
    method DispatchEvt(q: nat, t: nat, acts: seq<Act>)
      requires q in ctx && cur == Some(q) && Queues(acts) <= ctx.Keys && q !in Queues(acts) && WellNested(acts, true)
      requires forall p :: p in Queues(acts) ==> !ctx[p].isTiming
      modifies this
      ensures clock == old(clock) + Wall(acts) && cur == old(cur)
      ensures charged == old(charged) + ChargesOf(Dispatch(t, acts))
      ensures ctx.Keys == old(ctx).Keys && !ctx[q].isTiming
      ensures forall p :: p in ctx && p != q && p !in Queues(acts) ==> ctx[p] == old(ctx)[p]
      ensures forall p :: p in Queues(acts) ==> !ctx[p].isTiming
      decreases acts, 2
    {
      var start := clock;
      ctx := ctx[q := Ctx(true, 0)];
      Perform(q, acts, true);
      charged := charged + [Charge(t, clock - start - ctx[q].preempted)];
      ctx := ctx[q := ctx[q].(isTiming := false)];
    }

    /** The body of a handler or of a dispatch. */
    method Perform(q: nat, acts: seq<Act>, inDispatch: bool)
      requires q in ctx && cur == Some(q) && Queues(acts) <= ctx.Keys && q !in Queues(acts)
      requires WellNested(acts, inDispatch) && ctx[q].isTiming == inDispatch
      requires forall p :: p in Queues(acts) ==> !ctx[p].isTiming
      modifies this
      ensures clock == old(clock) + Wall(acts) && cur == old(cur) && charged == old(charged) + Charges(acts)
      ensures ctx.Keys == old(ctx).Keys && ctx[q].isTiming == inDispatch
      ensures inDispatch ==> ctx[q].preempted == old(ctx[q]).preempted + Direct(acts)
      ensures forall p :: p in ctx && p != q && p !in Queues(acts) ==> ctx[p] == old(ctx)[p]
      ensures forall p :: p in Queues(acts) ==> !ctx[p].isTiming
      decreases acts, 1
    {
      if acts != [] {
        match acts[0] {
          case Tick(n) => clock := clock + n;
          case Swi(p, inner) => SwiHandler(p, inner);
          case Dispatch(t, inner) => DispatchEvt(q, t, inner);
        }
        Perform(q, acts[1..], inDispatch);
      }
    }
  }

  // ---------- who is charged ----------

  /** The tasks whose dispatches end, in the order in which they do. */
  function Ends(acts: seq<Act>): seq<nat> {
    if acts == [] then [] else EndsOf(acts[0]) + Ends(acts[1..])
  }

  function EndsOf(a: Act): seq<nat> {
    match a
    case Tick(_) => []
    case Swi(_, acts) => Ends(acts)
    case Dispatch(t, acts) => Ends(acts) + [t]
  }

  ghost predicate ChargedTo(cs: seq<Charge>, tasks: seq<nat>) {
    |cs| == |tasks| && forall i :: 0 <= i < |cs| ==> cs[i].task == tasks[i]
  }

  /** Each dispatch is charged once, when it ends, to its own task. */
  lemma {:induction false} ChargedTasks(acts: seq<Act>)
    ensures ChargedTo(Charges(acts), Ends(acts))
    decreases acts, 1
  {
    if acts != [] {
      ChargedTask(acts[0]);
      ChargedTasks(acts[1..]);
    }
  }

  lemma {:induction false} ChargedTask(a: Act)
    ensures ChargedTo(ChargesOf(a), EndsOf(a))
    decreases a, 2
  {
    match a
    case Tick(_) =>
    case Swi(_, acts) => ChargedTasks(acts);
    case Dispatch(_, acts) => ChargedTasks(acts);
  }

  // ---------- what the charges add up to ----------

  function Sum(cs: seq<Charge>): int {
    if cs == [] then 0 else cs[0].ticks + Sum(cs[1..])
  }

  /** Ticks of handlers outside any dispatch. */
  function Overhead(acts: seq<Act>, inDispatch: bool): nat {
    if acts == [] then 0 else OverheadOf(acts[0], inDispatch) + Overhead(acts[1..], inDispatch)
  }

  function OverheadOf(a: Act, inDispatch: bool): nat {
    match a
    case Tick(n) => if inDispatch then 0 else n
    case Swi(_, acts) => Overhead(acts, false)
    case Dispatch(_, acts) => Overhead(acts, true)
  }

  lemma {:induction false} SumConcat(a: seq<Charge>, b: seq<Charge>)
    ensures Sum(a + b) == Sum(a) + Sum(b)
  {
    if a == [] {
      assert a + b == b;
    } else {
      assert (a + b)[1..] == a[1..] + b;
      SumConcat(a[1..], b);
    }
  }

  lemma {:induction false} DirectBound(acts: seq<Act>)
    ensures Direct(acts) <= Wall(acts)
  {
    if acts != [] { DirectBound(acts[1..]); }
  }

  /** No dispatch is charged a negative time, and each is charged at most its own wall time. */
  lemma {:induction false} ChargesNonNegative(acts: seq<Act>)
    ensures forall i :: 0 <= i < |Charges(acts)| ==> 0 <= Charges(acts)[i].ticks <= Wall(acts)
    decreases acts, 1
  {
    if acts != [] {
      ChargeNonNegative(acts[0]);
      ChargesNonNegative(acts[1..]);
    }
  }

  lemma {:induction false} ChargeNonNegative(a: Act)
    ensures forall i :: 0 <= i < |ChargesOf(a)| ==> 0 <= ChargesOf(a)[i].ticks <= WallOf(a)
    decreases a, 2
  {
    match a
    case Tick(_) =>
    case Swi(_, acts) => ChargesNonNegative(acts);
    case Dispatch(_, acts) =>
      ChargesNonNegative(acts);
      DirectBound(acts);
  }

  /** Inside a dispatch, everything but its own ticks is in direct handlers. */
  lemma {:induction false} TimeSplit(acts: seq<Act>, inDispatch: bool)
    requires WellNested(acts, inDispatch)
    ensures Sum(Charges(acts)) + Overhead(acts, inDispatch) == if inDispatch then Direct(acts) else Wall(acts)
    decreases acts, 1
  {
    if acts != [] {
      TimeSplitOf(acts[0], inDispatch);
      TimeSplit(acts[1..], inDispatch);
      SumConcat(ChargesOf(acts[0]), Charges(acts[1..]));
    }
  }

  lemma {:induction false} TimeSplitOf(a: Act, inDispatch: bool)
    requires WellNestedOf(a, inDispatch)
    ensures Sum(ChargesOf(a)) + OverheadOf(a, inDispatch) == if inDispatch && !a.Swi? then 0 else WallOf(a)
    decreases a, 2
  {
    match a
    case Tick(_) =>
    case Swi(_, acts) => TimeSplit(acts, false);
    case Dispatch(t, acts) =>
      TimeSplit(acts, true);
      SumConcat(Charges(acts), [Charge(t, Wall(acts) - Direct(acts))]);
      assert Sum([Charge(t, Wall(acts) - Direct(acts))]) == Wall(acts) - Direct(acts);
  }

  /**
   No tick is charged twice: the charges of a dispatch and of everything nested in it, and the time its nested
   handlers spend between their own dispatches, add up to its wall time; hence the charges are at most that.
   */
  lemma ChargesWithinWall(t: nat, acts: seq<Act>)
    requires WellNested(acts, true)
    ensures Sum(ChargesOf(Dispatch(t, acts))) + Overhead(acts, true) == Wall(acts)
    ensures Sum(ChargesOf(Dispatch(t, acts))) <= Wall(acts)
  {
    TimeSplitOf(Dispatch(t, acts), false);
  }
}
