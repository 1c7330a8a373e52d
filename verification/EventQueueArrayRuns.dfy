/** What the loops of source/kernel/vsf_evtq_array.c do to the queue, whatever other contexts and the handlers do. */
module EventQueueArrayRuns {
  import opened Basics
  import opened EventQueueArray

  // ---------- what happens meanwhile ----------

  /** A step of a handler or of another context, as opposed to one of poll. */
  predicate IsAction(step: Step) {
    !step.Fetch? && !step.Read? && !step.Release? && !step.Settle?
  }

  /** One action; it does nothing where it is not possible. */
  function Do(s: Queue, step: Step): (r: Queue) {
    if IsAction(step) && Enabled(s, step) then Apply(s, step) else s
  }

  function DoAll(s: Queue, acts: seq<Step>): (r: Queue) {
    if acts == [] then s else Do(DoAll(s, acts[..|acts| - 1]), acts[|acts| - 1])
  }

  /** Every action that is possible when its turn comes is taken. */
  lemma ActionTaken(s: Queue, acts: seq<Step>, a: Step)
    requires Enabled(DoAll(s, acts), a) && !a.Fetch? && !a.Read? && !a.Release? && !a.Settle?
    ensures DoAll(s, acts + [a]) == Apply(DoAll(s, acts), a)
  {
    assert (acts + [a])[..|acts|] == acts;
  }

  /** The slots that posts have queued. */
  function Gain(s: Queue, step: Step): seq<Slot> {
    if step.Post? && step.task < |s.eda| && !Refused(s.eda[step.task], step.force) && |s.slots| < s.cap
    then [Slot(Some(step.task), step.evt)] else []
  }

  function Gained(s: Queue, acts: seq<Step>): seq<Slot> {
    if acts == [] then []
    else Gained(s, acts[..|acts| - 1]) + Gain(DoAll(s, acts[..|acts| - 1]), acts[|acts| - 1])
  }

  /** `b` is `a` with some slots blanked. */
  ghost predicate Blanks(a: seq<Slot>, b: seq<Slot>) {
    |a| == |b| && forall i :: 0 <= i < |a| ==> b[i] == a[i] || b[i] == a[i].(eda := None)
  }

  lemma DoGains(s: Queue, step: Step)
    ensures Blanks(s.slots + Gain(s, step), Do(s, step).slots)
    ensures !step.CleanSlot? ==> Do(s, step).slots == s.slots + Gain(s, step)
  {
  }

  lemma BlanksAppend(a: seq<Slot>, b: seq<Slot>, c: seq<Slot>, d: seq<Slot>)
    requires Blanks(a, b) && Blanks(b + c, d)
    ensures Blanks(a + c, d)
  {
  }

  /** Actions keep what is queued, in order, but for blanking, and append exactly the accepted posts. */
  lemma {:induction false} DoAllGains(s: Queue, acts: seq<Step>)
    ensures Blanks(s.slots + Gained(s, acts), DoAll(s, acts).slots)
    ensures (forall i :: 0 <= i < |acts| ==> !acts[i].CleanSlot?) ==> DoAll(s, acts).slots == s.slots + Gained(s, acts)
    decreases |acts|
  {
    if acts != [] {
      var init, a := acts[..|acts| - 1], acts[|acts| - 1];
      DoAllGains(s, init);
      var m := DoAll(s, init);
      DoGains(m, a);
      BlanksAppend(s.slots + Gained(s, init), m.slots, Gain(m, a), Do(m, a).slots);
      assert (s.slots + Gained(s, init)) + Gain(m, a) == s.slots + Gained(s, acts);
    }
  }

  /** Actions as steps of a run. */
  lemma DoNext(s: Queue, step: Step)
    requires Inv(s)
    ensures Inv(Do(s, step)) && Do(s, step).phase == s.phase && Do(s, step).cap == s.cap && |Do(s, step).eda| == |s.eda|
  {
    if IsAction(step) && Enabled(s, step) { StepInv(s, step); }
  }

  lemma {:induction false} DoAllInv(s: Queue, acts: seq<Step>)
    requires Inv(s)
    ensures Inv(DoAll(s, acts)) && DoAll(s, acts).phase == s.phase && DoAll(s, acts).cap == s.cap
    ensures |DoAll(s, acts).eda| == |s.eda|
    decreases |acts|
  {
    if acts != [] {
      DoAllInv(s, acts[..|acts| - 1]);
      DoNext(DoAll(s, acts[..|acts| - 1]), acts[|acts| - 1]);
    }
  }

  // ---------- poll ----------

  /**
   What happens in a pass: before the slot is read, from then to the end of the dispatch, and between counting the task
   down and looking at it again.
   */
  datatype Meanwhile = Meanwhile(early: seq<Step>, late: seq<Step>, last: seq<Step>)

  /** The queue when the slot has been read. */
  function Reading(s: Queue, early: seq<Step>): (r: Queue)
    requires Inv(s) && s.phase == Idle && s.slots != []
    ensures Inv(r) && !r.phase.Fetched? && |r.eda| == |s.eda| && r.cap == s.cap
  {
    StepInv(s, Fetch);
    DoAllInv(Apply(s, Fetch), early);
    var m := DoAll(Apply(s, Fetch), early);
    StepInv(m, Read);
    Apply(m, Read)
  }

  /** The queue when the task has been counted down; a blank slot has none. */
  function Releasing(m: Queue, late: seq<Step>): (r: Queue)
    requires Inv(m) && !m.phase.Fetched?
    ensures Inv(r) && !r.phase.Fetched? && !r.phase.Dispatching? && |r.eda| == |m.eda| && r.cap == m.cap
  {
    DoAllInv(m, late);
    var n := DoAll(m, late);
    if n.phase.Dispatching? then StepInv(n, Release); Apply(n, Release) else n
  }

  function Settling(m: Queue, last: seq<Step>): (r: Queue)
    requires Inv(m) && !m.phase.Fetched? && !m.phase.Dispatching?
    ensures Inv(r) && r.phase == Idle && |r.eda| == |m.eda| && r.cap == m.cap
  {
    DoAllInv(m, last);
    var n := DoAll(m, last);
    if n.phase.Ending? then StepInv(n, Settle); Apply(n, Settle) else n
  }

  /** One pass of the loop of vsf_evtq_poll. */
  function Pass(s: Queue, w: Meanwhile): (r: Queue)
    requires Inv(s) && s.phase == Idle && s.slots != []
    ensures Inv(r) && r.phase == Idle && |r.eda| == |s.eda| && r.cap == s.cap
  {
    Settling(Releasing(Reading(s, w.early), w.late), w.last)
  }

  /** The whole loop: until the queue is empty, or the script ends. */
  function PollAll(s: Queue, script: seq<Meanwhile>): (r: Queue)
    requires Inv(s) && s.phase == Idle
    ensures Inv(r) && r.phase == Idle
    decreases |script|
  {
    if script == [] || s.slots == [] then s else PollAll(Pass(s, script[0]), script[1..])
  }

  /** The slots taken by the loop, in order. */
  function Taken(s: Queue, script: seq<Meanwhile>): (r: seq<Slot>)
    requires Inv(s) && s.phase == Idle
    ensures |r| <= |script| && (|r| < |script| ==> PollAll(s, script).slots == [])
    decreases |script|
  {
    if script == [] || s.slots == [] then [] else [s.slots[0]] + Taken(Pass(s, script[0]), script[1..])
  }

  /** Where the loop is: `taken` has been taken, `now` is left. */
  ghost predicate Polled(s: Queue, script: seq<Meanwhile>, now: Queue, taken: seq<Slot>)
    requires Inv(s) && s.phase == Idle
  {
    && Inv(now) && now.phase == Idle && |taken| <= |script|
    && PollAll(now, script[|taken|..]) == PollAll(s, script)
    && taken + Taken(now, script[|taken|..]) == Taken(s, script)
  }

  lemma PolledStep(s: Queue, script: seq<Meanwhile>, now: Queue, taken: seq<Slot>)
    requires Inv(s) && s.phase == Idle && Polled(s, script, now, taken)
    requires now.slots != [] && |taken| < |script|
    ensures Polled(s, script, Pass(now, script[|taken|]), taken + [now.slots[0]])
  {
    var k := |taken|;
    assert script[k..][1..] == script[k + 1..];
    var rest := Taken(Pass(now, script[k]), script[k + 1..]);
    assert taken + ([now.slots[0]] + rest) == (taken + [now.slots[0]]) + rest;
  }

  lemma PolledEnds(s: Queue, script: seq<Meanwhile>, now: Queue, taken: seq<Slot>)
    requires Inv(s) && s.phase == Idle
    ensures Polled(s, script, s, [])
    ensures Polled(s, script, now, taken) && (now.slots == [] || |taken| == |script|) ==>
      now == PollAll(s, script) && taken == Taken(s, script)
  {
    assert script[0..] == script && [] + Taken(s, script) == Taken(s, script);
  }

  /** The slots of the posts accepted in a pass, and in the whole loop. */
  function PassGained(s: Queue, w: Meanwhile): seq<Slot>
    requires Inv(s) && s.phase == Idle && s.slots != []
  {
    var m := Reading(s, w.early);
    (Gained(Apply(s, Fetch), w.early) + Gained(m, w.late)) + Gained(Releasing(m, w.late), w.last)
  }

  function PollGained(s: Queue, script: seq<Meanwhile>): seq<Slot>
    requires Inv(s) && s.phase == Idle
    decreases |script|
  {
    if script == [] || s.slots == [] then []
    else PassGained(s, script[0]) + PollGained(Pass(s, script[0]), script[1..])
  }

  lemma BlanksTrans(a: seq<Slot>, b: seq<Slot>, c: seq<Slot>)
    requires Blanks(a, b) && Blanks(b, c)
    ensures Blanks(a, c)
  {
  }

  lemma BlanksConcat(a: seq<Slot>, b: seq<Slot>, c: seq<Slot>)
    requires Blanks(a, b)
    ensures Blanks(a + c, b + c) && Blanks(c + a, c + b)
  {
  }

  /** A pass takes the oldest slot; behind it, the queue keeps its order and gains the accepted posts. */
  lemma PassOrder(s: Queue, w: Meanwhile)
    requires Inv(s) && s.phase == Idle && s.slots != []
    ensures Blanks(s.slots + PassGained(s, w), [s.slots[0]] + Pass(s, w).slots)
  {
    var f, m := Apply(s, Fetch), Reading(s, w.early);
    var n := Releasing(m, w.late);
    PassSlots(s, w);
    assert Blanks(f.slots + Gained(f, w.early), m.slots) by { DoAllGains(f, w.early); }
    assert Blanks(m.slots + Gained(m, w.late), n.slots) by { DoAllGains(m, w.late); }
    assert Blanks(n.slots + Gained(n, w.last), Pass(s, w).slots) by { DoAllGains(n, w.last); }
    ThreeBlanks([s.slots[0]], f.slots, Gained(f, w.early), m.slots, Gained(m, w.late), n.slots, Gained(n, w.last),
                Pass(s, w).slots);
    assert [s.slots[0]] + f.slots == s.slots;
  }

  lemma ThreeBlanks(x: seq<Slot>, tail: seq<Slot>, g: seq<Slot>, m: seq<Slot>, h: seq<Slot>, n: seq<Slot>,
                    k: seq<Slot>, r: seq<Slot>)
    requires Blanks(tail + g, m) && Blanks(m + h, n) && Blanks(n + k, r)
    ensures Blanks((x + tail) + ((g + h) + k), x + r)
  {
    PassBlanks(tail, g, m, h, n);
    PassBlanks(tail, g + h, n, k, r);
    BlanksConcat(tail + ((g + h) + k), r, x);
    assert x + (tail + ((g + h) + k)) == (x + tail) + ((g + h) + k);
  }

  lemma PassSlots(s: Queue, w: Meanwhile)
    requires Inv(s) && s.phase == Idle && s.slots != []
    ensures Reading(s, w.early).slots == DoAll(Apply(s, Fetch), w.early).slots
    ensures var m := Reading(s, w.early); var n := Releasing(m, w.late);
      n.slots == DoAll(m, w.late).slots && Pass(s, w).slots == DoAll(n, w.last).slots
  {
  }

  lemma PassBlanks(tail: seq<Slot>, g: seq<Slot>, m: seq<Slot>, h: seq<Slot>, n: seq<Slot>)
    requires Blanks(tail + g, m) && Blanks(m + h, n)
    ensures Blanks(tail + (g + h), n)
  {
    BlanksConcat(tail + g, m, h);
    BlanksTrans((tail + g) + h, m + h, n);
    assert (tail + g) + h == tail + (g + h);
  }

  /**
   Delivery order of the array queue, over every script: what was queued, followed by what was accepted meanwhile, is
   what the loop took, followed by what is still queued; cleaning blanks slots in place and reorders nothing.
   */
  lemma {:induction false} PollOrder(s: Queue, script: seq<Meanwhile>)
    requires Inv(s) && s.phase == Idle
    ensures Blanks(s.slots + PollGained(s, script), Taken(s, script) + PollAll(s, script).slots)
    decreases |script|
  {
    if script != [] && s.slots != [] {
      var m, rest, x := Pass(s, script[0]), script[1..], [s.slots[0]];
      PollOrder(m, rest);
      PassOrder(s, script[0]);
      PollBlanks(x, s.slots, PassGained(s, script[0]), m.slots, PollGained(m, rest), Taken(m, rest),
                 PollAll(m, rest).slots);
    }
  }

  lemma PollBlanks(x: seq<Slot>, s: seq<Slot>, g: seq<Slot>, m: seq<Slot>, h: seq<Slot>, taken: seq<Slot>,
                   left: seq<Slot>)
    requires Blanks(s + g, x + m) && Blanks(m + h, taken + left)
    ensures Blanks(s + (g + h), (x + taken) + left)
  {
    BlanksConcat(s + g, x + m, h);
    BlanksConcat(m + h, taken + left, x);
    assert (x + m) + h == x + (m + h);
    BlanksTrans((s + g) + h, x + (m + h), x + (taken + left));
    assert (s + g) + h == s + (g + h);
    assert x + (taken + left) == (x + taken) + left;
  }

  // ---------- poll as a run ----------

  /** Appends a step to a run. */
  lemma Extend(states: seq<Queue>, steps: seq<Step>, step: Step)
    requires IsRun(states, steps) && Inv(states[|steps|]) && Enabled(states[|steps|], step)
    ensures IsRun(states + [Apply(states[|steps|], step)], steps + [step])
  {
    var states', steps' := states + [Apply(states[|steps|], step)], steps + [step];
    forall i | 0 <= i < |steps'| ensures NextAt(states', steps', i) {
      if i < |steps| { assert NextAt(states, steps, i); }
    }
  }

  /** A run continued to `r`. */
  ghost predicate Continues(states: seq<Queue>, steps: seq<Step>, states': seq<Queue>, steps': seq<Step>, r: Queue) {
    && IsRun(states, steps) && IsRun(states', steps') && states <= states' && steps <= steps'
    && states'[|steps'|] == r && Inv(r)
  }

  lemma {:induction false} ActionsRun(states: seq<Queue>, steps: seq<Step>, acts: seq<Step>)
    returns (states': seq<Queue>, steps': seq<Step>)
    requires IsRun(states, steps)
    ensures Continues(states, steps, states', steps', DoAll(states[|steps|], acts))
    decreases |acts|
  {
    RunInv(states, steps, |steps|);
    states', steps' := states, steps;
    if acts != [] {
      var init, a := acts[..|acts| - 1], acts[|acts| - 1];
      states', steps' := ActionsRun(states, steps, init);
      var m := DoAll(states[|steps|], init);
      DoNext(m, a);
      if IsAction(a) && Enabled(m, a) {
        Extend(states', steps', a);
        states', steps' := states' + [Apply(m, a)], steps' + [a];
      }
    }
  }

  lemma ReadingRun(states: seq<Queue>, steps: seq<Step>, early: seq<Step>)
    returns (states': seq<Queue>, steps': seq<Step>)
    requires IsRun(states, steps)
    requires Inv(states[|steps|]) && states[|steps|].phase == Idle && states[|steps|].slots != []
    ensures Continues(states, steps, states', steps', Reading(states[|steps|], early))
  {
    var s := states[|steps|];
    Extend(states, steps, Fetch);
    states', steps' := states + [Apply(s, Fetch)], steps + [Fetch];
    states', steps' := ActionsRun(states', steps', early);
    DoAllInv(Apply(s, Fetch), early);
    Extend(states', steps', Read);
    states', steps' := states' + [Reading(s, early)], steps' + [Read];
  }

  lemma ReleasingRun(states: seq<Queue>, steps: seq<Step>, late: seq<Step>)
    returns (states': seq<Queue>, steps': seq<Step>)
    requires IsRun(states, steps) && Inv(states[|steps|]) && !states[|steps|].phase.Fetched?
    ensures Continues(states, steps, states', steps', Releasing(states[|steps|], late))
  {
    states', steps' := ActionsRun(states, steps, late);
    var n := DoAll(states[|steps|], late);
    if n.phase.Dispatching? {
      Extend(states', steps', Release);
      states', steps' := states' + [Apply(n, Release)], steps' + [Release];
    }
  }

  lemma SettlingRun(states: seq<Queue>, steps: seq<Step>, last: seq<Step>)
    returns (states': seq<Queue>, steps': seq<Step>)
    requires IsRun(states, steps) && Inv(states[|steps|])
    requires !states[|steps|].phase.Fetched? && !states[|steps|].phase.Dispatching?
    ensures Continues(states, steps, states', steps', Settling(states[|steps|], last))
  {
    states', steps' := ActionsRun(states, steps, last);
    var n := DoAll(states[|steps|], last);
    if n.phase.Ending? {
      Extend(states', steps', Settle);
      states', steps' := states' + [Apply(n, Settle)], steps' + [Settle];
    }
  }

  lemma PassRun(states: seq<Queue>, steps: seq<Step>, w: Meanwhile) returns (states': seq<Queue>, steps': seq<Step>)
    requires IsRun(states, steps)
    requires Inv(states[|steps|]) && states[|steps|].phase == Idle && states[|steps|].slots != []
    ensures Continues(states, steps, states', steps', Pass(states[|steps|], w))
  {
    states', steps' := ReadingRun(states, steps, w.early);
    states', steps' := ReleasingRun(states', steps', w.late);
    states', steps' := SettlingRun(states', steps', w.last);
  }

  /** The loop of poll with everything that happens meanwhile is a run of the queue. */
  lemma {:induction false} PollIsRun(states: seq<Queue>, steps: seq<Step>, script: seq<Meanwhile>)
    returns (states': seq<Queue>, steps': seq<Step>)
    requires IsRun(states, steps) && Inv(states[|steps|]) && states[|steps|].phase == Idle
    ensures Continues(states, steps, states', steps', PollAll(states[|steps|], script))
    decreases |script|
  {
    states', steps' := states, steps;
    if script != [] && states[|steps|].slots != [] {
      states', steps' := PassRun(states, steps, script[0]);
      states', steps' := PollIsRun(states', steps', script[1..]);
    }
  }

  // ---------- clean ----------

  /** The slots that a task's clean call blanks: all of its own, or those with the given event. */
  predicate Matches(slot: Slot, t: nat, evt: int) {
    slot.eda == Some(t) && (evt == VSF_EVT_NONE || slot.evt == evt)
  }

  function Blanked(slot: Slot, t: nat, evt: int): Slot {
    if Matches(slot, t, evt) then slot.(eda := None) else slot
  }

  function BlankFirst(slots: seq<Slot>, k: nat, t: nat, evt: int): (r: seq<Slot>)
    ensures |r| == |slots|
  {
    seq(|slots|, i requires 0 <= i < |slots| => if i < k then Blanked(slots[i], t, evt) else slots[i])
  }

  /** How many of the first `k` slots match. */
  function Hits(slots: seq<Slot>, k: nat, t: nat, evt: int): nat
    requires k <= |slots|
  {
    if k == 0 then 0 else Hits(slots, k - 1, t, evt) + if Matches(slots[k - 1], t, evt) then 1 else 0
  }

  /** The first `k` slots cleaned, at one stroke. */
  function Cleaned(s: Queue, k: nat, t: nat, evt: int): Queue
    requires k <= |s.slots| && t < |s.eda|
  {
    s.(slots := BlankFirst(s.slots, k, t, evt),
       eda := s.eda[t := s.eda[t].(cleaned := s.eda[t].cleaned + Hits(s.slots, k, t, evt))])
  }

  /** Only the running task cleans. */
  predicate Foreign(acts: seq<Step>) {
    forall i :: 0 <= i < |acts| ==> !acts[i].CleanSlot?
  }

  lemma {:induction false} HitsPrefix(a: seq<Slot>, b: seq<Slot>, k: nat, t: nat, evt: int)
    requires k <= |a|
    ensures Hits(a + b, k, t, evt) == Hits(a, k, t, evt)
  {
    if k > 0 { HitsPrefix(a, b, k - 1, t, evt); }
  }

  /** Other contexts cannot tell how far the cleaning has come. */
  lemma CleanedDo(s: Queue, k: nat, t: nat, evt: int, a: Step)
    requires k <= |s.slots| && t < |s.eda| && !a.CleanSlot?
    ensures k <= |Do(s, a).slots| && t < |Do(s, a).eda|
    ensures Do(Cleaned(s, k, t, evt), a) == Cleaned(Do(s, a), k, t, evt)
  {
    if a.Post? { CleanedPost(s, k, t, evt, a); } else { CleanedFlags(s, k, t, evt, a); }
  }

  lemma CleanedPost(s: Queue, k: nat, t: nat, evt: int, a: Step)
    requires k <= |s.slots| && t < |s.eda| && a.Post?
    ensures k <= |Do(s, a).slots| && t < |Do(s, a).eda|
    ensures Do(Cleaned(s, k, t, evt), a) == Cleaned(Do(s, a), k, t, evt)
  {
    var x := [Slot(Some(a.task), a.evt)];
    HitsPrefix(s.slots, x, k, t, evt);
    assert BlankFirst(s.slots + x, k, t, evt) == BlankFirst(s.slots, k, t, evt) + x;
  }

  lemma CleanedFlags(s: Queue, k: nat, t: nat, evt: int, a: Step)
    requires k <= |s.slots| && t < |s.eda| && !a.CleanSlot? && !a.Post?
    ensures Do(s, a).slots == s.slots && |Do(s, a).eda| == |s.eda|
    ensures Do(Cleaned(s, k, t, evt), a) == Cleaned(Do(s, a), k, t, evt)
  {
  }

  lemma {:induction false} CleanedDoAll(s: Queue, k: nat, t: nat, evt: int, acts: seq<Step>)
    requires k <= |s.slots| && t < |s.eda| && Foreign(acts)
    ensures k <= |DoAll(s, acts).slots| && t < |DoAll(s, acts).eda|
    ensures DoAll(Cleaned(s, k, t, evt), acts) == Cleaned(DoAll(s, acts), k, t, evt)
    decreases |acts|
  {
    if acts != [] {
      CleanedDoAll(s, k, t, evt, acts[..|acts| - 1]);
      CleanedDo(DoAll(s, acts[..|acts| - 1]), k, t, evt, acts[|acts| - 1]);
    }
  }

  /** One pass of the loop of vsf_evtq_clean_evt. */
  function CleanOne(s: Queue, k: nat, t: nat, evt: int): Queue
    requires k < |s.slots| && s.phase == Dispatching(t) && t < |s.eda|
  {
    if Matches(s.slots[k], t, evt) then Apply(s, CleanSlot(k)) else s
  }

  lemma CleanNext(s: Queue, k: nat, t: nat, evt: int)
    requires k < |s.slots| && s.phase == Dispatching(t) && t < |s.eda|
    ensures CleanOne(Cleaned(s, k, t, evt), k, t, evt) == Cleaned(s, k + 1, t, evt)
  {
    assert BlankFirst(s.slots, k + 1, t, evt) == BlankFirst(s.slots, k, t, evt)[k := Blanked(s.slots[k], t, evt)];
  }

  /** Cleaning keeps the count law. */
  lemma {:induction false} CleanedInv(s: Queue, k: nat, t: nat, evt: int)
    requires Inv(s) && k <= |s.slots| && s.phase == Dispatching(t)
    ensures Inv(Cleaned(s, k, t, evt))
  {
    if k == 0 {
      assert BlankFirst(s.slots, 0, t, evt) == s.slots;
      assert Cleaned(s, 0, t, evt) == s;
    } else {
      CleanedInv(s, k - 1, t, evt);
      CleanNext(s, k - 1, t, evt);
      var m := Cleaned(s, k - 1, t, evt);
      if Matches(m.slots[k - 1], t, evt) { StepInv(m, CleanSlot(k - 1)); }
    }
  }

  /** What arrives in the first `n` passes. */
  function Arrivals(arrivals: seq<seq<Step>>, n: nat): seq<Step> {
    if n == 0 then [] else Arrivals(arrivals, n - 1) + Batch(arrivals, n - 1)
  }

  function Batch(arrivals: seq<seq<Step>>, k: nat): seq<Step> {
    if k < |arrivals| then arrivals[k] else []
  }

  lemma {:induction false} DoAllConcat(s: Queue, a: seq<Step>, b: seq<Step>)
    ensures DoAll(s, a + b) == DoAll(DoAll(s, a), b)
    decreases |b|
  {
    if b == [] {
      assert a + b == a;
    } else {
      assert (a + b)[..|a + b| - 1] == a + b[..|b| - 1];
      DoAllConcat(s, a, b[..|b| - 1]);
    }
  }

  lemma {:induction false} ForeignArrivals(arrivals: seq<seq<Step>>, n: nat)
    requires forall i :: 0 <= i < |arrivals| ==> Foreign(arrivals[i])
    ensures Foreign(Arrivals(arrivals, n))
  {
    if n > 0 { ForeignArrivals(arrivals, n - 1); }
  }

  /** After `k` passes: as if everything that arrived in them came first, and the first `k` slots were then cleaned. */
  ghost predicate CleanedTo(s: Queue, k: nat, t: nat, evt: int, arrivals: seq<seq<Step>>, now: Queue) {
    var r := DoAll(s, Arrivals(arrivals, k));
    k <= |s.slots| <= |r.slots| && t < |r.eda| && now == Cleaned(r, k, t, evt)
  }

  lemma CleanStart(s: Queue, t: nat, evt: int, arrivals: seq<seq<Step>>)
    requires t < |s.eda|
    ensures CleanedTo(s, 0, t, evt, arrivals, s)
  {
    assert BlankFirst(s.slots, 0, t, evt) == s.slots;
  }

  lemma CleanPassed(s: Queue, k: nat, t: nat, evt: int, arrivals: seq<seq<Step>>, now: Queue)
    requires Inv(s) && k < |s.slots| && s.phase == Dispatching(t) && CleanedTo(s, k, t, evt, arrivals, now)
    requires forall i :: 0 <= i < |arrivals| ==> Foreign(arrivals[i])
    ensures var m := DoAll(now, Batch(arrivals, k));
      && m.phase == Dispatching(t) && t < |m.eda| && k < |m.slots|
      && CleanedTo(s, k + 1, t, evt, arrivals, CleanOne(m, k, t, evt))
  {
    var a, b := Arrivals(arrivals, k), Batch(arrivals, k);
    CleanedDoAll(DoAll(s, a), k, t, evt, b);
    DoAllConcat(s, a, b);
    DoAllInv(s, a + b);
    ForeignArrivals(arrivals, k + 1);
    DoAllGains(s, a + b);
    CleanNext(DoAll(s, a + b), k, t, evt);
  }

  /** So after a clean call: the snapshot with the matching slots blanked, and behind it just what was accepted. */
  lemma CleanedContents(s: Queue, t: nat, evt: int, arrivals: seq<seq<Step>>, now: Queue)
    requires Inv(s) && s.phase == Dispatching(t) && CleanedTo(s, |s.slots|, t, evt, arrivals, now)
    requires forall i :: 0 <= i < |arrivals| ==> Foreign(arrivals[i])
    ensures Inv(now)
    ensures now.slots == BlankFirst(s.slots, |s.slots|, t, evt) + Gained(s, Arrivals(arrivals, |s.slots|))
  {
    var n := |s.slots|;
    var acts := Arrivals(arrivals, n);
    var r := DoAll(s, acts);
    assert r.slots == s.slots + Gained(s, acts) by {
      ForeignArrivals(arrivals, n);
      DoAllGains(s, acts);
    }
    assert Inv(now) by {
      DoAllInv(s, acts);
      CleanedInv(r, n, t, evt);
    }
    BlankConcat(s.slots, Gained(s, acts), t, evt);
  }

  lemma BlankConcat(a: seq<Slot>, b: seq<Slot>, t: nat, evt: int)
    ensures BlankFirst(a + b, |a|, t, evt) == BlankFirst(a, |a|, t, evt) + b
  {
  }
}
