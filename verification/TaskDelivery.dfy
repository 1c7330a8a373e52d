/** What one task sees of an event queue, whichever way the queue is implemented. */
module TaskDelivery {

  /** Events waiting for the task, whether it is being dispatched, and whether it accepts only one event at a time. */
  datatype View = View(pending: seq<int>, busy: bool, limited: bool)

  datatype Input = Posted(evt: int, force: bool) | Limited(on: bool) | Begun | Ended
  datatype Output = Accepted | Refused | Delivered(evt: int) | Quiet

  predicate Ready(v: View) {
    v.busy || v.pending != []
  }

  predicate Allowed(v: View, i: Input) {
    match i
    case Begun => !v.busy && v.pending != []
    case Ended => v.busy
    case _ => true
  }

  function React(v: View, i: Input): (View, Output) {
    match i
    case Posted(evt, force) =>
      if v.limited && Ready(v) && !force then (v, Refused) else (v.(pending := v.pending + [evt]), Accepted)
    case Limited(on) => (v.(limited := on), Quiet)
    case Begun =>
      if v.pending == [] then (v, Quiet)
      else (v.(busy := true, pending := v.pending[1..]), Delivered(v.pending[0]))
    case Ended => (v.(busy := false), Quiet)
  }

  function After(v: View, inputs: seq<Input>): View {
    if inputs == [] then v
    else React(After(v, inputs[..|inputs| - 1]), inputs[|inputs| - 1]).0
  }

  function Outputs(v: View, inputs: seq<Input>): seq<Output> {
    if inputs == [] then []
    else
      var before := inputs[..|inputs| - 1];
      Outputs(v, before) + [React(After(v, before), inputs[|inputs| - 1]).1]
  }

  /** A post is refused exactly when the task is limited and has an event, waiting or running, unless it is forced. */
  lemma AcceptedExactly(v: View, evt: int, force: bool)
    ensures React(v, Posted(evt, force)).1 == Refused <==> v.limited && (v.busy || v.pending != []) && !force
    ensures React(v, Posted(evt, force)).1 != Refused ==>
      React(v, Posted(evt, force)) == (View(v.pending + [evt], v.busy, v.limited), Accepted)
  {
  }

  /** The limit last set. */
  function LastLimit(inputs: seq<Input>, first: bool): bool {
    if inputs == [] then first
    else
      var i := inputs[|inputs| - 1];
      if i.Limited? then i.on else LastLimit(inputs[..|inputs| - 1], first)
  }

  lemma {:induction false} LimitKept(v: View, inputs: seq<Input>)
    ensures After(v, inputs).limited == LastLimit(inputs, v.limited)
  {
    if inputs != [] { LimitKept(v, inputs[..|inputs| - 1]); }
  }

  /** Over every history: a post is refused exactly when the limit last set is on, and the task has an event. */
  lemma RefusedExactly(v: View, inputs: seq<Input>, evt: int, force: bool)
    ensures var outs := Outputs(v, inputs + [Posted(evt, force)]);
      && |outs| == |inputs| + 1
      && (outs[|inputs|] == Refused <==> LastLimit(inputs, v.limited) && Load(After(v, inputs)) > 0 && !force)
  {
    var all := inputs + [Posted(evt, force)];
    assert all[..|inputs|] == inputs;
    OutputsLength(v, inputs);
    LimitKept(v, inputs);
  }

  lemma {:induction false} OutputsLength(v: View, inputs: seq<Input>)
    ensures |Outputs(v, inputs)| == |inputs|
  {
    if inputs != [] { OutputsLength(v, inputs[..|inputs| - 1]); }
  }

  /** Events waiting and running. */
  function Load(v: View): nat {
    |v.pending| + if v.busy then 1 else 0
  }

  /** What the limit is for: a task that stays limited and gets no forced posts never has more than one event. */
  lemma {:induction false} LimitedToOne(v: View, inputs: seq<Input>)
    requires v.limited && Load(v) <= 1
    requires forall i :: 0 <= i < |inputs| ==> inputs[i] != Limited(false) && (inputs[i].Posted? ==> !inputs[i].force)
    ensures After(v, inputs).limited && Load(After(v, inputs)) <= 1
  {
    if inputs != [] { LimitedToOne(v, inputs[..|inputs| - 1]); }
  }

  /** The events a task accepted, and the events delivered to it. */
  function AcceptedEvents(inputs: seq<Input>, outputs: seq<Output>): seq<int>
    requires |inputs| == |outputs|
  {
    if inputs == [] then []
    else
      var n := |inputs| - 1;
      AcceptedEvents(inputs[..n], outputs[..n]) + Gain(inputs[n], outputs[n])
  }

  function Gain(i: Input, out: Output): seq<int> {
    if i.Posted? && out.Accepted? then [i.evt] else []
  }

  function DeliveredEvents(outputs: seq<Output>): seq<int> {
    if outputs == [] then []
    else
      var n := |outputs| - 1;
      DeliveredEvents(outputs[..n]) + Given(outputs[n])
  }

  function Given(out: Output): seq<int> {
    if out.Delivered? then [out.evt] else []
  }

  /** Accepted events are delivered in the order of posting, each once; what is not delivered yet is pending. */
  lemma {:induction false} DeliveredInOrder(v: View, inputs: seq<Input>)
    ensures |Outputs(v, inputs)| == |inputs|
    ensures v.pending + AcceptedEvents(inputs, Outputs(v, inputs))
         == DeliveredEvents(Outputs(v, inputs)) + After(v, inputs).pending
  {
    if inputs != [] {
      var n := |inputs| - 1;
      DeliveredInOrder(v, inputs[..n]);
      var w, outs := After(v, inputs[..n]), Outputs(v, inputs);
      assert outs[..n] == Outputs(v, inputs[..n]);
      ReactBalance(w, inputs[n]);
      var x, y := Gain(inputs[n], outs[n]), Given(outs[n]);
      var accepted, delivered := AcceptedEvents(inputs[..n], outs[..n]), DeliveredEvents(outs[..n]);
      Regroup(v.pending, accepted, x, delivered, w.pending, y, After(v, inputs).pending);
    }
  }

  lemma ReactBalance(w: View, i: Input)
    ensures var (after, out) := React(w, i); w.pending + Gain(i, out) == Given(out) + after.pending
  {
  }

  lemma Regroup(v: seq<int>, a: seq<int>, x: seq<int>, d: seq<int>, p: seq<int>, y: seq<int>, q: seq<int>)
    requires v + a == d + p && p + x == y + q
    ensures v + (a + x) == (d + y) + q
  {
    calc {
      v + (a + x);
      (v + a) + x;
      d + (p + x);
      (d + y) + q;
    }
  }
}
