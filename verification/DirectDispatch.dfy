/**
 The build without event queues (source/kernel/vsf_eda.c): posting runs the handler of the task at once, from inside
 the handler that posts, and a task that is already running has one slot for a pending value.
 */
module DirectDispatch {
  import opened Basics
  import opened Bits

  // ---------- values ----------

  const MESSAGE: int := 0x109

  predicate IsEvent(evt: int) { -0x8000 <= evt < 0x8000 }

  /** `(uintptr_t)((evt << 1) | 1)` with pointers of `w` bits. */
  function EncodeEvent(evt: int, w: nat): (value: nat)
    requires w >= 17 && IsEvent(evt)
    ensures value % 2 == 1 && value < Pow2(w)
  {
    Pow2Large(w);
    if evt < 0 then Pow2(w) + 2 * evt + 1 else 2 * evt + 1
  }

  /** VSF_EVT_INVALID, -1, as a pointer-sized value: no value is pending. */
  function Marker(w: nat): nat { Pow2(w) - 1 }

  /** A value cut to int16_t. */
  function ToEvent(x: nat): (evt: int)
    ensures IsEvent(evt)
  {
    var low := x % 0x10000;
    if low < 0x8000 then low else low - 0x10000
  }

  /** What the handler sees: the current task, its event and its message. */
  datatype Context = Idle | Handling(task: nat, evt: int, msg: nat)

  function Decode(task: nat, value: nat): Context {
    if value % 2 == 1 then Handling(task, ToEvent(value / 2), 0) else Handling(task, MESSAGE, value)
  }

  lemma {:induction false} Pow2Large(w: nat)
    requires w >= 17
    ensures Pow2(w) == 0x20000 * Pow2(w - 17)
  {
    if w == 17 {
      assert Pow2(5) == 32;
      assert Pow2(10) == 32 * Pow2(5);
      assert Pow2(15) == 32 * Pow2(10);
    } else {
      Pow2Large(w - 1);
    }
  }

  /** The handler gets back exactly the event or the message that was posted. */
  lemma PostedIsSeen(task: nat, evt: int, msg: nat, w: nat)
    requires w >= 17 && IsEvent(evt) && msg % 2 == 0
    ensures Decode(task, EncodeEvent(evt, w)) == Handling(task, evt, 0)
    ensures Decode(task, msg) == Handling(task, MESSAGE, msg)
  {
    Pow2Large(w);
    var k := Pow2(w - 17);
    if evt < 0 {
      assert (0x20000 * k + 2 * evt + 1) / 2 == 0x10000 * k + evt;
      assert (0x10000 * k + evt) % 0x10000 == evt + 0x10000;
    }
  }

  /** Only the event -1 encodes to the marker, and no even pointer is the marker. */
  lemma MarkerExact(evt: int, msg: nat, w: nat)
    requires w >= 17 && IsEvent(evt)
    ensures EncodeEvent(evt, w) == Marker(w) <==> evt == -1
    ensures msg % 2 == 0 ==> msg != Marker(w)
  {
    Pow2Large(w);
  }

  // ---------- what happens, as a log ----------

  /** A post is accepted or refused, a handler is entered with a value or left. */
  datatype Entry =
    | Accept(task: nat, value: nat, busy: bool)
    | Refuse(task: nat, value: nat)
    | Enter(task: nat, value: nat)
    | Leave(task: nat)

  datatype Frame = Frame(task: nat, value: nat)

  /** The handlers entered and not left, outermost first. */
  function Stack(log: seq<Entry>): seq<Frame> {
    if log == [] then []
    else
      var stack, e := Stack(log[..|log| - 1]), log[|log| - 1];
      match e
      case Enter(t, v) => stack + [Frame(t, v)]
      case Leave(_) => if stack == [] then [] else stack[..|stack| - 1]
      case _ => stack
  }

  ghost predicate Active(stack: seq<Frame>, t: nat) {
    exists i :: 0 <= i < |stack| && stack[i].task == t
  }

  /** Handlers nest, none is entered while it is active, and a post finds its task busy exactly when it is active. */
  ghost predicate Proper(log: seq<Entry>) {
    log == [] || (Proper(log[..|log| - 1]) && ProperEntry(Stack(log[..|log| - 1]), log[|log| - 1]))
  }

  ghost predicate ProperEntry(stack: seq<Frame>, e: Entry) {
    match e
    case Accept(t, _, busy) => busy <==> Active(stack, t)
    case Refuse(t, _) => Active(stack, t)
    case Enter(t, _) => !Active(stack, t)
    case Leave(t) => stack != [] && stack[|stack| - 1].task == t
  }

  function Accepted(log: seq<Entry>, t: nat): seq<nat> {
    if log == [] then []
    else
      var e := log[|log| - 1];
      Accepted(log[..|log| - 1], t) + if e.Accept? && e.task == t then [e.value] else []
  }

  function Entered(log: seq<Entry>, t: nat): seq<nat> {
    if log == [] then []
    else
      var e := log[|log| - 1];
      Entered(log[..|log| - 1], t) + if e.Enter? && e.task == t then [e.value] else []
  }

  /** A value equal to the marker, accepted by a task that is active: storing it leaves the slot empty. */
  predicate IsLost(e: Entry, t: nat, marker: nat) {
    e.Accept? && e.task == t && e.busy && e.value == marker
  }

  /** The accepted values that are not lost. */
  function Kept(log: seq<Entry>, t: nat, marker: nat): seq<nat> {
    if log == [] then []
    else
      var e := log[|log| - 1];
      Kept(log[..|log| - 1], t, marker) + if e.Accept? && e.task == t && !IsLost(e, t, marker) then [e.value] else []
  }

  lemma {:induction false} KeptLength(log: seq<Entry>, t: nat, marker: nat)
    ensures |Kept(log, t, marker)| <= |Accepted(log, t)|
    ensures |Kept(log, t, marker)| == |Accepted(log, t)| <==> forall i :: 0 <= i < |log| ==> !IsLost(log[i], t, marker)
    ensures |Kept(log, t, marker)| == |Accepted(log, t)| ==> Kept(log, t, marker) == Accepted(log, t)
  {
    if log != [] {
      var init := log[..|log| - 1];
      KeptLength(init, t, marker);
      assert log == init + [log[|log| - 1]];
      assert forall i :: 0 <= i < |init| ==> log[i] == init[i];
    }
  }

  /** Every accepted value reaches the handler, once and in order, exactly when no -1 is posted to an active task. */
  lemma DeliveredExactly(log: seq<Entry>, t: nat, marker: nat)
    requires Entered(log, t) == Kept(log, t, marker)
    ensures Entered(log, t) == Accepted(log, t) <==> forall i :: 0 <= i < |log| ==> !IsLost(log[i], t, marker)
  {
    KeptLength(log, t, marker);
  }

  /** Over a whole proper log: at every entry of a handler its task is inactive. */
  lemma {:induction false} NeverReentered(log: seq<Entry>, i: nat)
    requires Proper(log) && i < |log|
    ensures log[i].Enter? ==> !Active(Stack(log[..i]), log[i].task)
    ensures log[i].Accept? && !log[i].busy ==> !Active(Stack(log[..i]), log[i].task)
  {
    var init := log[..|log| - 1];
    if i < |log| - 1 {
      NeverReentered(init, i);
      assert init[..i] == log[..i];
    } else {
      assert init == log[..i];
    }
  }

  /** One more entry. */
  lemma Extend(log: seq<Entry>, e: Entry, t: nat, marker: nat)
    ensures var r := log + [e];
      && (Proper(r) <==> Proper(log) && ProperEntry(Stack(log), e))
      && Accepted(r, t) == Accepted(log, t) + (if e.Accept? && e.task == t then [e.value] else [])
      && Entered(r, t) == Entered(log, t) + (if e.Enter? && e.task == t then [e.value] else [])
      && Kept(r, t, marker) == Kept(log, t, marker)
        + (if e.Accept? && e.task == t && !IsLost(e, t, marker) then [e.value] else [])
  {
    assert (log + [e])[..|log|] == log;
  }

  lemma ExtendStack(log: seq<Entry>, e: Entry)
    ensures e.Enter? ==> Stack(log + [e]) == Stack(log) + [Frame(e.task, e.value)]
    ensures e.Leave? && Stack(log) != [] ==> Stack(log + [e]) == Stack(log)[..|Stack(log)| - 1]
    ensures e.Accept? || e.Refuse? ==> Stack(log + [e]) == Stack(log)
  {
    assert (log + [e])[..|log|] == log;
  }

  // ---------- what one handler posts ----------

  /** The posts made from entry `from` on while just `depth` handlers were active, accepted or refused, in order. */
  function PostsAt(log: seq<Entry>, from: nat, depth: nat): seq<Frame> {
    if |log| <= from then []
    else
      var init, e := log[..|log| - 1], log[|log| - 1];
      PostsAt(init, from, depth) +
      if (e.Accept? || e.Refuse?) && |Stack(init)| == depth then [Frame(e.task, e.value)] else []
  }

  /** From one log to the other, the innermost handler makes just these posts, and those around it none. */
  ghost predicate Posted(before: seq<Entry>, after: seq<Entry>, posts: seq<Frame>) {
    && before <= after && PostsAt(after, |before|, |Stack(before)|) == posts
    && forall d: nat :: d < |Stack(before)| ==> PostsAt(after, |before|, d) == []
  }

  lemma {:induction false} PostsSplit(a: seq<Entry>, b: seq<Entry>, from: nat, depth: nat)
    requires a <= b && from <= |a|
    ensures PostsAt(b, from, depth) == PostsAt(a, from, depth) + PostsAt(b, |a|, depth)
    decreases |b|
  {
    if |a| < |b| {
      PostsSplit(a, b[..|b| - 1], from, depth);
    } else {
      assert a == b;
    }
  }

  lemma PostedTrans(a: seq<Entry>, b: seq<Entry>, c: seq<Entry>, p: seq<Frame>, q: seq<Frame>)
    requires Posted(a, b, p) && Posted(b, c, q) && |Stack(a)| == |Stack(b)|
    ensures Posted(a, c, p + q)
  {
    forall d: nat ensures PostsAt(c, |a|, d) == PostsAt(b, |a|, d) + PostsAt(c, |b|, d) { PostsSplit(b, c, |a|, d); }
  }

  lemma PostedThrice(a: seq<Entry>, b: seq<Entry>, c: seq<Entry>, d: seq<Entry>, p: seq<Frame>)
    requires Posted(a, b, p) && Posted(b, c, []) && Posted(c, d, []) && |Stack(a)| == |Stack(b)| == |Stack(c)|
    ensures Posted(a, d, p) && c <= d
  {
    PostedTrans(b, c, d, [], []);
    PostedTrans(a, b, d, p, []);
  }

  lemma Joined(log: seq<Entry>, e: Entry, f: Entry, first: seq<Entry>, done: seq<Entry>, end: seq<Entry>)
    requires log + [e] + [f] + first <= done <= end
    ensures log + [e, f] + first <= end
  {
    assert log + [e, f] == log + [e] + [f];
  }

  lemma PostedNothing(log: seq<Entry>)
    ensures Posted(log, log, [])
  {
  }

  lemma PostedEntry(log: seq<Entry>, e: Entry)
    requires e.Accept? || e.Refuse?
    ensures Posted(log, log + [e], [Frame(e.task, e.value)])
  {
    OneEntry(log, e);
  }

  function OwnPost(log: seq<Entry>, e: Entry, d: nat): seq<Frame> {
    if (e.Accept? || e.Refuse?) && |Stack(log)| == d then [Frame(e.task, e.value)] else []
  }

  lemma OneEntry(log: seq<Entry>, e: Entry)
    ensures forall d :: PostsAt(log + [e], |log|, d) == OwnPost(log, e, d)
  {
    assert (log + [e])[..|log|] == log;
  }

  /** Whatever a handler posts, those around it post nothing meanwhile. */
  lemma PostedInside(log: seq<Entry>, t: nat, value: nat, inner: seq<Entry>, posts: seq<Frame>)
    requires Posted(log + [Enter(t, value)], inner, posts)
    ensures Posted(log, inner + [Leave(t)], [])
  {
    var a, c := log + [Enter(t, value)], inner + [Leave(t)];
    ExtendStack(log, Enter(t, value));
    OneEntry(log, Enter(t, value));
    OneEntry(inner, Leave(t));
    forall d: nat | d <= |Stack(log)| ensures PostsAt(c, |log|, d) == [] {
      PostsSplit(a, inner, |log|, d);
      PostsSplit(inner, c, |log|, d);
    }
  }

  // ---------- one task in a log ----------

  /** The values kept for a task are those its handler was entered with, then the pending one. */
  ghost predicate Law(log: seq<Entry>, t: nat, pending: nat, marker: nat) {
    Kept(log, t, marker) == Entered(log, t) + if pending == marker then [] else [pending]
  }

  /** A task obeys the law, is processing exactly while its handler is active, and has nothing pending otherwise. */
  ghost predicate TaskOk(log: seq<Entry>, t: nat, processing: bool, pending: nat, marker: nat) {
    Law(log, t, pending, marker) && (processing <==> Active(Stack(log), t)) && (!processing ==> pending == marker)
  }

  /** Entries of other tasks do not matter. */
  lemma OtherTask(log: seq<Entry>, e: Entry, t: nat, processing: bool, pending: nat, marker: nat)
    requires TaskOk(log, t, processing, pending, marker) && e.task != t && ProperEntry(Stack(log), e)
    ensures TaskOk(log + [e], t, processing, pending, marker)
  {
    Extend(log, e, t, marker);
    ExtendStack(log, e);
    var stack := Stack(log);
    if e.Enter? {
      Pushed(stack, Frame(e.task, e.value), t);
    } else if e.Leave? {
      Pushed(stack[..|stack| - 1], stack[|stack| - 1], t);
      assert stack[..|stack| - 1] + [stack[|stack| - 1]] == stack;
    }
  }

  lemma Pushed(stack: seq<Frame>, f: Frame, t: nat)
    ensures Active(stack + [f], t) <==> Active(stack, t) || f.task == t
  {
    var r := stack + [f];
    if Active(stack, t) {
      var i :| 0 <= i < |stack| && stack[i].task == t;
      assert r[i].task == t;
    }
    if f.task == t { assert r[|stack|].task == t; }
  }

  /** A post to an active task. */
  lemma PostBusy(log: seq<Entry>, e: Entry, pending: nat, marker: nat)
    requires TaskOk(log, e.task, true, pending, marker) && Proper(log)
    requires (e.Accept? && e.busy && pending == marker) || e.Refuse?
    ensures TaskOk(log + [e], e.task, true, if e.Accept? then e.value else pending, marker)
    ensures ProperEntry(Stack(log), e) && Proper(log + [e]) && Stack(log + [e]) == Stack(log)
  {
    Extend(log, e, e.task, marker);
    ExtendStack(log, e);
  }

  /** A post to an idle task. */
  lemma PostIdle(log: seq<Entry>, t: nat, value: nat, marker: nat)
    requires TaskOk(log, t, false, marker, marker) && Proper(log)
    ensures var e := Accept(t, value, false);
      && ProperEntry(Stack(log), e) && Proper(log + [e]) && Stack(log + [e]) == Stack(log)
      && Kept(log + [e], t, marker) == Entered(log + [e], t) + [value]
  {
    Extend(log, Accept(t, value, false), t, marker);
    ExtendStack(log, Accept(t, value, false));
  }

  lemma EnterTask(log: seq<Entry>, t: nat, value: nat, marker: nat)
    requires Kept(log, t, marker) == Entered(log, t) + [value] && Proper(log) && !Active(Stack(log), t)
    ensures var e := Enter(t, value);
      && ProperEntry(Stack(log), e) && Proper(log + [e]) && Stack(log + [e]) == Stack(log) + [Frame(t, value)]
      && TaskOk(log + [e], t, true, marker, marker)
  {
    Extend(log, Enter(t, value), t, marker);
    ExtendStack(log, Enter(t, value));
    Pushed(Stack(log), Frame(t, value), t);
  }

  lemma LeaveTask(log: seq<Entry>, stack: seq<Frame>, t: nat, value: nat, pending: nat, marker: nat)
    requires TaskOk(log, t, true, pending, marker) && Proper(log) && Stack(log) == stack + [Frame(t, value)]
    ensures var e := Leave(t);
      && ProperEntry(Stack(log), e) && Proper(log + [e]) && Stack(log + [e]) == stack
      && Law(log + [e], t, pending, marker)
  {
    Extend(log, Leave(t), t, marker);
    ExtendStack(log, Leave(t));
  }

  // ---------- the code ----------

  /** What a handler does: post a value, or a synchronization object limits a task to one event or lifts the limit. */
  datatype Act = Post(task: nat, value: nat) | Limit(task: nat, limited: bool)

  predicate ActsOk(acts: seq<Act>, n: nat) {
    forall j :: 0 <= j < |acts| ==> acts[j].task < n
  }

  /** The posts among the acts of a handler. */
  function PostsOf(acts: seq<Act>): seq<Frame> {
    if acts == [] then []
    else
      var act := acts[|acts| - 1];
      PostsOf(acts[..|acts| - 1]) + if act.Post? then [Frame(act.task, act.value)] else []
  }

  lemma NextAct(acts: seq<Act>, i: nat)
    requires i < |acts|
    ensures PostsOf(acts[..i + 1]) == PostsOf(acts[..i]) + PostsOf([acts[i]])
  {
    assert acts[..i + 1][..i] == acts[..i] && [acts[i]][..0] == [];
  }

  predicate ScriptOk(script: seq<seq<Act>>, n: nat) {
    forall i :: 0 <= i < |script| ==> ActsOk(script[i], n)
  }

  /** What a post adds to the log first. */
  function EntryOf(act: Act, processing: seq<bool>, limited: seq<bool>, pending: seq<nat>, marker: nat): seq<Entry>
    requires act.task < |processing| == |limited| == |pending|
  {
    if act.Limit? then []
    else if processing[act.task] && (limited[act.task] || pending[act.task] != marker)
    then [Refuse(act.task, act.value)]
    else [Accept(act.task, act.value, processing[act.task])]
  }

  /** And so the first thing that a handler does. */
  function FirstPost(script: seq<seq<Act>>, processing: seq<bool>, limited: seq<bool>, pending: seq<nat>,
                     marker: nat): seq<Entry>
    requires ScriptOk(script, |processing|) && |processing| == |limited| == |pending|
  {
    if script == [] || script[0] == [] then [] else EntryOf(script[0][0], processing, limited, pending, marker)
  }

  class Dispatcher {
    /** Bits of a pointer, number of tasks. */
    const w: nat
    const n: nat
    /** Per task: flag.state.is_processing, flag.state.is_limitted, evt_pending. */
    var processing: seq<bool>
    var limited: seq<bool>
    var pending: seq<nat>
    /** __vsf_eda.cur */
    var cur: Context
    /** What the handlers will do, one element for each time a handler runs; when there is none left, nothing. */
    var script: seq<seq<Act>>
    ghost var log: seq<Entry>

    /** Sizes; and the current context is that of the innermost handler. */
    ghost predicate Shape()
      reads this
    {
      && |processing| == |limited| == |pending| == n && ScriptOk(script, n) && Proper(log)
      && var stack := Stack(log);
        cur == if stack == [] then Idle else Decode(stack[|stack| - 1].task, stack[|stack| - 1].value)
    }

    ghost predicate Valid()
      reads this
    {
      Shape() && forall t :: 0 <= t < n ==> TaskOk(log, t, processing[t], pending[t], Marker(w))
    }

    /** Between two dispatches of `t`: it is marked as processing but not active. */
    ghost predicate Draining(t: nat)
      reads this
    {
      && Shape() && t < n && processing[t] && !Active(Stack(log), t)
      && forall u :: 0 <= u < n && u != t ==> TaskOk(log, u, processing[u], pending[u], Marker(w))
    }

    constructor (w: nat, n: nat, script: seq<seq<Act>>)
      requires ScriptOk(script, n)
      ensures this.w == w && this.n == n && this.script == script && Valid() && log == [] && cur == Idle
    {
      this.w, this.n, this.script, cur, log := w, n, script, Idle, [];
      processing, limited := seq(n, _ => false), seq(n, _ => false);
      pending := seq(n, _ => Marker(w));
    }

    /** Entries of one task keep what holds of the others. */
    lemma OtherTasks(e: Entry)
      requires |processing| == |pending| == n && ProperEntry(Stack(log), e)
      requires forall u :: 0 <= u < n && u != e.task ==> TaskOk(log, u, processing[u], pending[u], Marker(w))
      ensures forall u :: 0 <= u < n && u != e.task ==> TaskOk(log + [e], u, processing[u], pending[u], Marker(w))
    {
      forall u | 0 <= u < n && u != e.task ensures TaskOk(log + [e], u, processing[u], pending[u], Marker(w)) {
        OtherTask(log, e, u, processing[u], pending[u], Marker(w));
      }
    }

    /** __vsf_evtq_post */
    method PostValue(t: nat, value: nat) returns (err: Err)
      requires Valid() && t < n
      modifies this
      ensures Valid() && processing == old(processing) && cur == old(cur) && Stack(log) == old(Stack(log))
      ensures |script| <= |old(script)|
      ensures err == (if old(processing[t]) && (old(limited[t]) || old(pending[t]) != Marker(w)) then Fail else Ok)
      ensures old(log) + [if err == Ok then Accept(t, value, old(processing[t])) else Refuse(t, value)] <= log
      ensures old(processing[t]) ==> limited == old(limited) && script == old(script) && |log| == |old(log)| + 1
      ensures old(processing[t]) ==> pending == if err == Ok then old(pending)[t := value] else old(pending)
      ensures Posted(old(log), log, [Frame(t, value)])
      ensures !old(processing[t]) ==>
        var first := FirstPost(old(script), old(processing)[t := true], old(limited), old(pending), Marker(w));
        old(log) + [Accept(t, value, false), Enter(t, value)] + first <= log
      decreases |script|, 5
    {
      if processing[t] {
        err := PostPending(t, value);
      } else {
        DispatchAll(t, value);
        err := Ok;
      }
    }

    /** __vsf_evtq_post, the task being active. */
    method PostPending(t: nat, value: nat) returns (err: Err)
      requires Valid() && t < n && processing[t]
      modifies this`pending, this`log
      ensures Valid() && Stack(log) == old(Stack(log)) && Posted(old(log), log, [Frame(t, value)])
      ensures err == if limited[t] || old(pending[t]) != Marker(w) then Fail else Ok
      ensures log == old(log) + [if err == Ok then Accept(t, value, true) else Refuse(t, value)]
      ensures pending == if err == Ok then old(pending)[t := value] else old(pending)
    {
      ghost var accept := !limited[t] && pending[t] == Marker(w);
      ghost var e := if accept then Accept(t, value, true) else Refuse(t, value);
      PostBusy(log, e, pending[t], Marker(w));
      OtherTasks(e);
      PostedEntry(log, e);
      log := log + [e];
      if !limited[t] && pending[t] == Marker(w) {
        pending := pending[t := value];
        return Ok;
      }
      return Fail;
    }

    /** The rest of __vsf_evtq_post: the value, then whatever is posted to the task while it runs. */
    method DispatchAll(t: nat, value: nat)
      requires Valid() && t < n && !processing[t]
      modifies this
      ensures Valid() && processing == old(processing) && cur == old(cur) && Stack(log) == old(Stack(log))
      ensures |script| <= |old(script)|
      ensures old(log) + [Accept(t, value, false), Enter(t, value)]
        + FirstPost(old(script), old(processing)[t := true], old(limited), old(pending), Marker(w)) <= log
      ensures Posted(old(log), log, [Frame(t, value)])
      decreases |script|, 4
    {
      ghost var first := FirstPost(script, processing[t := true], limited, pending, Marker(w));
      MarkProcessing(t, value);
      ghost var accepted := log;
      PostDo(t, value);
      ghost var done := log;
      DispatchPending(t);
      PostedThrice(old(log), accepted, done, log, [Frame(t, value)]);
      Joined(old(log), Accept(t, value, false), Enter(t, value), first, done, log);
      ClearProcessing(t);
    }

    /** __vsf_evtq_post, at its end. */
    method ClearProcessing(t: nat)
      requires Draining(t) && Law(log, t, pending[t], Marker(w)) && pending[t] == Marker(w)
      modifies this`processing
      ensures Valid() && processing == old(processing)[t := false]
    {
      processing := processing[t := false];
    }

    /** __vsf_evtq_post marks an idle task before its first dispatch. */
    method MarkProcessing(t: nat, ghost value: nat)
      requires Valid() && t < n && !processing[t]
      modifies this`processing, this`log
      ensures Draining(t) && pending[t] == Marker(w) && processing == old(processing)[t := true]
      ensures log == old(log) + [Accept(t, value, false)] && Stack(log) == old(Stack(log))
      ensures Kept(log, t, Marker(w)) == Entered(log, t) + [value] && Posted(old(log), log, [Frame(t, value)])
    {
      PostIdle(log, t, value, Marker(w));
      OtherTasks(Accept(t, value, false));
      PostedEntry(log, Accept(t, value, false));
      log := log + [Accept(t, value, false)];
      processing := processing[t := true];
    }

    /** The loop of __vsf_evtq_post: it leaves nothing pending. */
    method DispatchPending(t: nat)
      requires Draining(t) && Law(log, t, pending[t], Marker(w))
      modifies this
      ensures Draining(t) && Law(log, t, pending[t], Marker(w)) && pending[t] == Marker(w)
      ensures processing == old(processing) && cur == old(cur) && Stack(log) == old(Stack(log))
      ensures |script| <= |old(script)| && Posted(old(log), log, [])
      decreases |script|, 3
    {
      PostedNothing(log);
      while pending[t] != Marker(w)
        invariant Draining(t) && Law(log, t, pending[t], Marker(w))
        invariant processing == old(processing) && cur == old(cur) && Stack(log) == old(Stack(log))
        invariant |script| <= |old(script)| && Posted(old(log), log, [])
        decreases |script|, pending[t] != Marker(w)
      {
        ghost var before := log;
        var next := pending[t];
        pending := pending[t := Marker(w)];
        PostDo(t, next);
        PostedTrans(old(log), before, log, [], []);
      }
    }

    /** __vsf_evtq_post_do */
    method PostDo(t: nat, value: nat)
      requires Draining(t) && pending[t] == Marker(w)
      requires Kept(log, t, Marker(w)) == Entered(log, t) + [value]
      modifies this
      ensures Draining(t) && Law(log, t, pending[t], Marker(w))
      ensures processing == old(processing) && cur == old(cur) && Stack(log) == old(Stack(log))
      ensures old(log) + [Enter(t, value)]
        + FirstPost(old(script), old(processing), old(limited), old(pending), Marker(w)) <= log
      ensures if old(script) == [] then script == [] && pending == old(pending) else |script| < |old(script)|
      ensures Posted(old(log), log, [])
      decreases |script|, 2
    {
      var ctxOld := cur;
      ghost var stack := Stack(log);
      EnterHandler(t, value);
      ghost var posts := if script == [] then [] else PostsOf(script[0]);
      Handle();
      PostedInside(old(log), t, value, log, posts);
      LeaveHandler(t, value, ctxOld, stack);
    }

    /** __vsf_evtq_post_do up to the call of the handler. */
    method EnterHandler(t: nat, value: nat)
      requires Draining(t) && pending[t] == Marker(w)
      requires Kept(log, t, Marker(w)) == Entered(log, t) + [value]
      modifies this`log, this`cur
      ensures Valid() && log == old(log) + [Enter(t, value)] && Stack(log) == old(Stack(log)) + [Frame(t, value)]
      ensures cur == Decode(t, value)
    {
      EnterTask(log, t, value, Marker(w));
      OtherTasks(Enter(t, value));
      log := log + [Enter(t, value)];
      cur := Decode(t, value);
    }

    /** __vsf_evtq_post_do from there on: the context is the one before. */
    method LeaveHandler(t: nat, ghost value: nat, ctxOld: Context, ghost stack: seq<Frame>)
      requires Valid() && t < n && processing[t] && Stack(log) == stack + [Frame(t, value)] && !Active(stack, t)
      requires ctxOld == if stack == [] then Idle else Decode(stack[|stack| - 1].task, stack[|stack| - 1].value)
      modifies this`log, this`cur
      ensures Draining(t) && Law(log, t, pending[t], Marker(w))
      ensures log == old(log) + [Leave(t)] && Stack(log) == stack && cur == ctxOld
    {
      LeaveTask(log, stack, t, value, pending[t], Marker(w));
      OtherTasks(Leave(t));
      log := log + [Leave(t)];
      cur := ctxOld;
    }

    /** __vsf_dispatch_evt: the handler of the current task does what the script says. */
    method Handle()
      requires Valid()
      modifies this
      ensures Valid() && processing == old(processing) && cur == old(cur) && Stack(log) == old(Stack(log))
      ensures old(log) + FirstPost(old(script), old(processing), old(limited), old(pending), Marker(w)) <= log
      ensures if old(script) == [] then script == [] && pending == old(pending) else |script| < |old(script)|
      ensures Posted(old(log), log, if old(script) == [] then [] else PostsOf(old(script)[0]))
      decreases |script|, 1
    {
      PostedNothing(log);
      if script == [] { return; }
      var acts := script[0];
      script := script[1..];
      if acts != [] {
        PerformAct(acts[0]);
        PerformRest(acts, old(log));
      }
    }

    /** The acts but the first; `start` is the log at the entry of the handler. */
    method PerformRest(acts: seq<Act>, ghost start: seq<Entry>)
      requires Valid() && ActsOk(acts, n) && acts != []
      requires |Stack(start)| == |Stack(log)| && Posted(start, log, PostsOf(acts[..1]))
      modifies this
      ensures Valid() && processing == old(processing) && cur == old(cur) && Stack(log) == old(Stack(log))
      ensures old(log) <= log && |script| <= |old(script)|
      ensures Posted(start, log, PostsOf(acts))
      decreases |script|, 7
    {
      for i := 1 to |acts|
        invariant Valid() && processing == old(processing) && cur == old(cur) && Stack(log) == old(Stack(log))
        invariant old(log) <= log && |script| <= |old(script)| && Posted(start, log, PostsOf(acts[..i]))
      {
        ghost var before := log;
        PerformAct(acts[i]);
        NextAct(acts, i);
        PostedTrans(start, before, log, PostsOf(acts[..i]), PostsOf([acts[i]]));
      }
      assert acts[..|acts|] == acts;
    }

    method PerformAct(act: Act)
      requires Valid() && act.task < n
      modifies this
      ensures Valid() && processing == old(processing) && cur == old(cur) && Stack(log) == old(Stack(log))
      ensures |script| <= |old(script)|
      ensures old(log) + EntryOf(act, old(processing), old(limited), old(pending), Marker(w)) <= log
      ensures Posted(old(log), log, PostsOf([act]))
      ensures act.Limit? ==> log == old(log) && limited == old(limited)[act.task := act.limited]
      ensures act.Limit? ==> pending == old(pending)
      decreases |script|, 6
    {
      PostedNothing(log);
      assert [act][..0] == [] && PostsOf([act]) == if act.Post? then [Frame(act.task, act.value)] else [];
      match act {
        case Post(u, v) => var _ := PostValue(u, v);
        case Limit(u, b) => limited := limited[u := b];
      }
    }

    /**
     A post from outside any handler: when it returns, every task has been given all the values kept for it, once and
     in the order in which they were accepted, and no handler was entered while active.
     */
    method PostTop(t: nat, value: nat)
      requires Valid() && t < n && Stack(log) == []
      modifies this
      ensures Valid() && Stack(log) == [] && cur == Idle && Proper(log)
      ensures old(log) + [Accept(t, value, false)] <= log
      ensures forall u :: 0 <= u < n ==> !processing[u] && Entered(log, u) == Kept(log, u, Marker(w))
      ensures forall u :: 0 <= u < n ==>
        (Entered(log, u) == Accepted(log, u) <==> forall i :: 0 <= i < |log| ==> !IsLost(log[i], u, Marker(w)))
      ensures old(log) + [Accept(t, value, false), Enter(t, value)]
        + FirstPost(old(script), old(processing)[t := true], old(limited), old(pending), Marker(w)) <= log
    {
      assert TaskOk(log, t, processing[t], pending[t], Marker(w));
      var _ := PostValue(t, value);
      forall u | 0 <= u < n
        ensures !processing[u] && Entered(log, u) == Kept(log, u, Marker(w))
        ensures Entered(log, u) == Accepted(log, u) <==> forall i :: 0 <= i < |log| ==> !IsLost(log[i], u, Marker(w))
      {
        assert TaskOk(log, u, processing[u], pending[u], Marker(w));
        DeliveredExactly(log, u, Marker(w));
      }
    }

    /** The failing case: the handler posts -1 to its own task. The post is accepted, and never delivered. */
    method PostMinusOne(t: nat, value: nat)
      requires Valid() && t < n && Stack(log) == [] && !limited[t]
      requires script != [] && script[0] != [] && script[0][0] == Post(t, Marker(w))
      modifies this
      ensures Valid() && Stack(log) == [] && Entered(log, t) != Accepted(log, t)
      ensures old(log) + [Accept(t, value, false), Enter(t, value), Accept(t, Marker(w), true)] <= log
    {
      assert TaskOk(log, t, processing[t], pending[t], Marker(w));
      ghost var first := FirstPost(script, processing[t := true], limited, pending, Marker(w));
      ghost var base := log + [Accept(t, value, false), Enter(t, value)];
      assert first == [Accept(t, Marker(w), true)];
      assert base + first == log + [Accept(t, value, false), Enter(t, value), Accept(t, Marker(w), true)];
      PostTop(t, value);
      assert log[|base|] == (base + first)[|base|];
      assert IsLost(log[|base|], t, Marker(w));
    }
  }
}
