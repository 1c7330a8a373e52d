/**
 The sub-call frame stack of a task (source/kernel/vsf_eda.c). A task's handler pointer and the list of its frames
 share one word, so the handler of a task without frames ends up as the `next` link of its first frame.
 */
module FrameStack {
  import opened Basics

  /** The shared word: nothing, a handler, or a frame. */
  datatype Link = Null | Handler(h: nat) | Frame(f: nat)

  datatype Feature = Feature(isUseFrame: bool, isStackOwner: bool, hasReturnValue: bool, userBits: nat)

  datatype FrameRec = FrameRec(next: Link, func: nat, feature: Feature, localSize: nat, param: nat)

  /** What a task holds, its frames in use, and the free frames, which it shares with all other tasks. */
  datatype Context = Context(fn: Link, feature: Feature, frames: map<nat, FrameRec>, pool: set<nat>)

  datatype Call = Call(func: nat, param: nat, localSize: nat, feature: Feature)

  datatype Step =
    | SubCall(f: nat, call: Call)
    | Return
    | SetUserBits(bits: nat)
    | SetHandler(func: nat)
    | TargetSet(f: nat, target: nat)
    | GoTo(f: nat, call: Call)
    | Others(pool: set<nat>)

  datatype Outcome = Resumed | Terminated

  // ---------- the operations ----------

  /** __vsf_eda_call_eda_ex_prepare with is_sub_call, once frame `f` has been allocated. */
  function Push(s: Context, f: nat, c: Call): (r: Context)
    requires f in s.pool
  {
    Context(Frame(f), c.feature.(isUseFrame := true),
            s.frames[f := FrameRec(s.fn, c.func, s.feature, c.localSize, c.param)], s.pool - {f})
  }

  /** Unlink the top frame, take its saved feature bits, free it. */
  function Pop(s: Context): (r: Context)
    requires s.fn.Frame? && s.fn.f in s.frames
  {
    var frame := s.frames[s.fn.f];
    Context(frame.next, frame.feature, s.frames - {s.fn.f}, s.pool + {s.fn.f})
  }

  /** The condition of the automatic free in __vsf_eda_return: a bottom frame that saved no frame flag. */
  predicate AutoFree(s: Context) {
    s.fn.Frame? && s.fn.f in s.frames && s.frames[s.fn.f].next == Null && !s.frames[s.fn.f].feature.isUseFrame
  }

  /** The frames freed by vsf_eda_fini. */
  function Unwind(s: Context): (r: Context)
    decreases |s.frames|
  {
    if s.feature.isUseFrame && s.fn.Frame? && s.fn.f in s.frames then
      PopShrinks(s);
      Unwind(Pop(s))
    else s
  }

  /** What __vsf_eda_return asserts or dereferences: the top frame, and the one under it when there is one. */
  predicate CanReturn(s: Context) {
    s.feature.isUseFrame ==>
      && s.fn.Frame? && s.fn.f in s.frames
      && (Pop(s).feature.isUseFrame && Pop(s).fn != Null ==> Pop(s).fn.Frame? && Pop(s).fn.f in Pop(s).frames)
  }

  /** __vsf_eda_return */
  function Returned(s: Context): (Context, Outcome)
    requires CanReturn(s)
  {
    if !s.feature.isUseFrame then (Unwind(s), Terminated)
    else
      var r := Pop(s);
      if !r.feature.isUseFrame then (r, Resumed)
      else if r.fn == Null then (Unwind(r), Terminated)
      else if AutoFree(r) then
        (r.(feature := r.frames[r.fn.f].feature, frames := r.frames - {r.fn.f}, pool := r.pool + {r.fn.f}), Resumed)
      else (r, Resumed)
  }

  lemma PopShrinks(s: Context)
    requires s.fn.Frame? && s.fn.f in s.frames
    ensures |Pop(s).frames| < |s.frames|
  {
    assert Pop(s).frames.Keys == s.frames.Keys - {s.fn.f};
    assert |s.frames.Keys - {s.fn.f}| == |s.frames.Keys| - 1;
  }

  /** Which handler the next event goes to. */
  function Target(s: Context): Option<nat> {
    if !s.feature.isUseFrame then (if s.fn.Handler? then Some(s.fn.h) else None)
    else if s.fn.Frame? && s.fn.f in s.frames then Some(s.frames[s.fn.f].func) else None
  }

  /** __vsf_eda_ensure_frame_used on a task without frames: a frame is put under the handler. */
  function Covered(s: Context, f: nat, target: nat): (r: Context)
    requires f in s.pool && s.fn.Handler? && !s.feature.isUseFrame
  {
    Context(Frame(f), s.feature.(isUseFrame := true),
            s.frames[f := FrameRec(Null, s.fn.h, s.feature, 0, target)], s.pool - {f})
  }

  /** __vsf_eda_call_eda_ex_prepare without is_sub_call: the top frame is reused, and saves the current bits. */
  function Jumped(s: Context, c: Call): (r: Context)
    requires s.fn.Frame? && s.fn.f in s.frames
  {
    var frame := s.frames[s.fn.f];
    s.(feature := c.feature.(isUseFrame := true),
       frames := s.frames[s.fn.f :=
         frame.(func := c.func, feature := s.feature, localSize := c.localSize, param := c.param)])
  }

  // ---------- the invariant ----------

  /** A task started without a frame, or with one. */
  ghost predicate Root(s: Context) {
    || (s.fn.Handler? && !s.feature.isUseFrame && s.frames == map[])
    || (s.fn.Frame? && s.feature.isUseFrame && s.frames.Keys == {s.fn.f}
        && s.frames[s.fn.f].next == Null && s.frames[s.fn.f].feature.isUseFrame)
  }

  /**
   `saved` are the contexts of the callers at the time of their calls, innermost first: the top frame of `s` holds
   just what is needed to get back to the first of them.
   */
  ghost predicate Stacked(s: Context, saved: seq<Context>)
    decreases |saved|
  {
    if saved == [] then Root(s)
    else
      var caller := saved[0];
      && s.feature.isUseFrame && s.fn.Frame? && s.fn.f in s.frames && s.fn.f !in caller.frames
      && s.frames == caller.frames[s.fn.f := s.frames[s.fn.f]]
      && s.frames[s.fn.f].next == caller.fn && s.frames[s.fn.f].feature == caller.feature
      && Stacked(caller, saved[1..])
  }

  /** And no frame of the task is free. */
  ghost predicate Nested(s: Context, saved: seq<Context>) {
    Stacked(s, saved) && s.pool !! s.frames.Keys
  }

  predicate HasTop(s: Context) {
    s.fn.Frame? && s.fn.f in s.frames
  }

  predicate Enabled(s: Context, step: Step) {
    match step
    case SubCall(f, _) => f in s.pool
    case SetHandler(_) => s.feature.isUseFrame ==> HasTop(s)
    case Return => CanReturn(s)
    case SetUserBits(_) => true
    case TargetSet(f, _) => if s.feature.isUseFrame then HasTop(s) else s.fn.Handler? && f in s.pool
    case GoTo(f, _) => if s.feature.isUseFrame then HasTop(s) else s.fn.Handler? && f in s.pool
    case Others(pool) => pool !! s.frames.Keys
  }

  function Apply(s: Context, step: Step): (r: Context)
    requires Enabled(s, step)
  {
    match step
    case SubCall(f, c) => Push(s, f, c)
    case SetUserBits(bits) => s.(feature := s.feature.(userBits := bits))
    case SetHandler(func) =>
      if s.feature.isUseFrame then s.(frames := s.frames[s.fn.f := s.frames[s.fn.f].(func := func)])
      else s.(fn := Handler(func))
    case Return => Returned(s).0
    case TargetSet(f, target) =>
      if s.feature.isUseFrame then s.(frames := s.frames[s.fn.f := s.frames[s.fn.f].(param := target)])
      else Covered(s, f, target)
    case GoTo(f, c) => Jumped(if s.feature.isUseFrame then s else Covered(s, f, 0), c)
    case Others(pool) => s.(pool := pool)
  }

  /** The context of a caller, with the frames that are free now. */
  function Back(s: Context, caller: Context): Context
    requires s.fn.Frame?
  {
    caller.(pool := s.pool + {s.fn.f})
  }

  lemma PopRestores(s: Context, saved: seq<Context>)
    requires Nested(s, saved) && saved != []
    ensures Pop(s) == Back(s, saved[0]) && Nested(Pop(s), saved[1..])
  {
    assert Pop(s).frames == saved[0].frames;
    PoolIsFree(saved[0], s.pool + {s.fn.f}, saved[1..]);
  }

  lemma PoolIsFree(s: Context, pool: set<nat>, saved: seq<Context>)
    requires Stacked(s, saved)
    ensures Stacked(s.(pool := pool), saved)
  {
  }

  /** The automatic free needs a NULL link under the top frame; a stored handler is never that. */
  lemma {:induction false} NeverAutoFree(s: Context, saved: seq<Context>)
    requires Stacked(s, saved)
    ensures !AutoFree(s) && s.fn != Null && (s.feature.isUseFrame ==> HasTop(s))
    decreases |saved|
  {
    if saved != [] { NeverAutoFree(saved[0], saved[1..]); }
  }

  /** A return gives the caller back its exact handler link, feature bits and frames, and frees one frame. */
  lemma ReturnRestores(s: Context, saved: seq<Context>)
    requires Nested(s, saved)
    ensures CanReturn(s)
    ensures saved != [] ==> Returned(s) == (Back(s, saved[0]), Resumed) && Nested(Returned(s).0, saved[1..])
    ensures saved == [] ==> Returned(s).1 == Terminated && Returned(s).0.frames == map[]
  {
    if saved != [] {
      PopRestores(s, saved);
      NeverAutoFree(Pop(s), saved[1..]);
    } else if s.feature.isUseFrame {
      assert Pop(s).frames == map[];
    }
  }

  // ---------- the two steps with a condition ----------

  /**
   vsf_eda_target_set keeps the round trip if and only if the task already uses a frame; otherwise no nesting describes
   the task any more.
   */
  lemma TargetSetExact(s: Context, saved: seq<Context>, f: nat, target: nat)
    requires Nested(s, saved) && Enabled(s, TargetSet(f, target))
    ensures Nested(Apply(s, TargetSet(f, target)), saved) <==> s.feature.isUseFrame
    ensures !s.feature.isUseFrame ==> forall any :: !Nested(Apply(s, TargetSet(f, target)), any)
  {
    if !s.feature.isUseFrame {
      var r := Apply(s, TargetSet(f, target));
      forall any ensures !Nested(r, any) {
        if Nested(r, any) && any != [] { NeverAutoFree(any[0], any[1..]); }
      }
    }
  }

  /** The next return from a sub-call then frees the frame under the handler but leaves the task pointing at it. */
  lemma TargetSetDangles(s: Context, f: nat, target: nat, g: nat, c: Call)
    requires Root(s) && !s.feature.isUseFrame && f in s.pool && g in s.pool && f != g
    ensures var (r, outcome) := Returned(Push(Apply(s, TargetSet(f, target)), g, c));
      outcome == Resumed && r.fn == Frame(f) && f !in r.frames && f in r.pool && Target(r) == None
  {
    var covered := Apply(s, TargetSet(f, target));
    assert Pop(Push(covered, g, c)).frames == covered.frames;
  }

  /** __vsf_eda_go_to_ex keeps it if and only if the task is at its bottom level or runs with the caller's bits. */
  lemma GoToExact(s: Context, saved: seq<Context>, f: nat, c: Call)
    requires Nested(s, saved) && Enabled(s, GoTo(f, c))
    ensures Nested(Apply(s, GoTo(f, c)), saved) <==> saved == [] || s.feature == saved[0].feature
  {
  }

  /**
   And so for the return after it: from a task whose caller has no frames, it takes the caller's handler for a frame;
   otherwise it restores the caller if and only if the callee ran with the caller's bits.
   */
  lemma GoToReturns(s: Context, saved: seq<Context>, f: nat, c: Call)
    requires Nested(s, saved) && saved != [] && Enabled(s, GoTo(f, c))
    ensures var r := Apply(s, GoTo(f, c));
      && (CanReturn(r) <==> saved[0].feature.isUseFrame)
      && (CanReturn(r) && Returned(r) == (Back(s, saved[0]), Resumed) <==> s.feature == saved[0].feature)
  {
    var r := Apply(s, GoTo(f, c));
    PopRestores(s, saved);
    NeverAutoFree(saved[0], saved[1..]);
    assert Pop(r).frames == Pop(s).frames;
  }

  // ---------- whole runs ----------

  /** The pending calls after a step. */
  function Calls(s: Context, step: Step, saved: seq<Context>): seq<Context>
    requires step.Return? ==> saved != []
  {
    match step
    case SubCall(_, _) => [s] + saved
    case Return => saved[1..]
    case _ => saved
  }

  /** The conditions above; and the task is gone once it has returned from its bottom level. */
  predicate Proper(s: Context, saved: seq<Context>, step: Step) {
    match step
    case Return => saved != []
    case TargetSet(_, _) => s.feature.isUseFrame
    case GoTo(_, _) => saved == [] || s.feature == saved[0].feature
    case _ => true
  }

  lemma StepNested(s: Context, step: Step, saved: seq<Context>)
    requires Nested(s, saved) && Enabled(s, step) && Proper(s, saved, step)
    ensures Nested(Apply(s, step), Calls(s, step, saved))
  {
    match step
    case SubCall(_, _) => assert ([s] + saved)[1..] == saved;
    case Return => ReturnRestores(s, saved);
    case TargetSet(f, target) => TargetSetExact(s, saved, f, target);
    case GoTo(f, c) => GoToExact(s, saved, f, c);
    case _ =>
  }

  ghost predicate Next(s: Context, saved: seq<Context>, step: Step, r: Context, saved': seq<Context>) {
    Nested(s, saved) ==>
      Enabled(s, step) && Proper(s, saved, step) && r == Apply(s, step) && saved' == Calls(s, step, saved)
  }

  ghost predicate NextAt(states: seq<Context>, calls: seq<seq<Context>>, steps: seq<Step>, i: nat)
    requires i < |steps| && |states| == |calls| == |steps| + 1
  {
    Next(states[i], calls[i], steps[i], states[i + 1], calls[i + 1])
  }

  /**
   A run of a task, with the contexts of the pending calls recorded beside it. Between any two of its steps other tasks
   may take and return frames.
   */
  ghost predicate IsRun(states: seq<Context>, calls: seq<seq<Context>>, steps: seq<Step>) {
    && |states| == |calls| == |steps| + 1 && Nested(states[0], []) && calls[0] == []
    && forall i :: 0 <= i < |steps| ==> NextAt(states, calls, steps, i)
  }

  /**
   Call and return are inverse at any nesting depth: over every run, each return gives the caller back the context of
   its call, whatever the callee and other tasks did in between, and so the handler that its next event goes to.
   */
  lemma {:induction false} CallReturnInverse(states: seq<Context>, calls: seq<seq<Context>>, steps: seq<Step>, n: nat)
    requires IsRun(states, calls, steps) && n <= |steps|
    ensures Nested(states[n], calls[n]) && !AutoFree(states[n])
    ensures n > 0 && steps[n - 1] == Return ==>
      && calls[n - 1] != [] && states[n] == calls[n - 1][0].(pool := states[n].pool)
      && Target(states[n]) == Target(calls[n - 1][0])
  {
    if n > 0 {
      CallReturnInverse(states, calls, steps, n - 1);
      assert NextAt(states, calls, steps, n - 1);
      StepNested(states[n - 1], steps[n - 1], calls[n - 1]);
      if steps[n - 1].Return? { ReturnRestores(states[n - 1], calls[n - 1]); }
    }
    NeverAutoFree(states[n], calls[n]);
  }

  // ---------- what each level runs with ----------

  /** The handler, parameter, size of local data and feature bits that a level of calls runs with. */
  datatype Level = Level(func: nat, param: nat, localSize: nat, feature: Feature)

  function LevelOf(c: Call): Level {
    Level(c.func, c.param, c.localSize, c.feature.(isUseFrame := true))
  }

  /** A call starts a level, a return gives the one below back, and other steps change what they are asked to. */
  function NextLevels(step: Step, levels: seq<Level>): seq<Level> {
    if levels == [] then []
    else
      var top, rest := levels[0], levels[1..];
      match step
      case SubCall(_, c) => [LevelOf(c)] + levels
      case Return => rest
      case SetUserBits(bits) => [top.(feature := top.feature.(userBits := bits))] + rest
      case SetHandler(func) => [top.(func := func)] + rest
      case TargetSet(_, target) => [top.(param := target)] + rest
      case GoTo(_, c) => [LevelOf(c)] + rest
      case Others(_) => levels
  }

  function LevelsAt(steps: seq<Step>, first: Level, n: nat): seq<Level>
    requires n <= |steps|
  {
    if n == 0 then [first] else NextLevels(steps[n - 1], LevelsAt(steps, first, n - 1))
  }

  /** The task runs at this level: its next event goes to that handler, with that parameter, data and bits. */
  predicate RunsAt(s: Context, level: Level) {
    && Target(s) == Some(level.func) && s.feature == level.feature
    && (s.feature.isUseFrame ==> HasTop(s) && s.frames[s.fn.f].param == level.param
                                 && s.frames[s.fn.f].localSize == level.localSize)
  }

  ghost predicate LevelsMatch(s: Context, saved: seq<Context>, levels: seq<Level>) {
    |levels| == |saved| + 1 && RunsAt(s, levels[0]) && forall i :: 0 <= i < |saved| ==> RunsAt(saved[i], levels[i + 1])
  }

  lemma LevelStep(s: Context, step: Step, saved: seq<Context>, levels: seq<Level>)
    requires Nested(s, saved) && Enabled(s, step) && Proper(s, saved, step) && LevelsMatch(s, saved, levels)
    ensures LevelsMatch(Apply(s, step), Calls(s, step, saved), NextLevels(step, levels))
  {
    if step.Return? {
      ReturnRestores(s, saved);
      assert RunsAt(saved[0], levels[1]);
    } else {
      TopStep(s, step, levels[0]);
    }
  }

  lemma TopStep(s: Context, step: Step, top: Level)
    requires Enabled(s, step) && !step.Return? && RunsAt(s, top) && (step.TargetSet? ==> s.feature.isUseFrame)
    ensures RunsAt(Apply(s, step), NextLevels(step, [top])[0])
  {
  }

  /**
   Over every run of calls and returns: the task, and each of its callers at the time of its call, runs with the
   handler, the parameter and the bits of the call that started its level, or of the last step that set them.
   */
  lemma {:induction false} LevelsKept(states: seq<Context>, calls: seq<seq<Context>>, steps: seq<Step>, first: Level,
                                      n: nat)
    requires IsRun(states, calls, steps) && n <= |steps| && RunsAt(states[0], first)
    ensures LevelsMatch(states[n], calls[n], LevelsAt(steps, first, n))
  {
    if n > 0 {
      LevelsKept(states, calls, steps, first, n - 1);
      CallReturnInverse(states, calls, steps, n - 1);
      assert NextAt(states, calls, steps, n - 1);
      LevelStep(states[n - 1], steps[n - 1], calls[n - 1], LevelsAt(steps, first, n - 1));
    }
  }

  // ---------- the code ----------

  /** vsf_eda_fini frees every frame that is left, so that none is leaked at any depth. */
  lemma {:induction false} UnwindFreesAll(s: Context, saved: seq<Context>)
    requires Nested(s, saved)
    ensures Unwind(s).frames == map[] && Unwind(s).pool == s.pool + s.frames.Keys
    decreases |saved|
  {
    if saved != [] {
      PopRestores(s, saved);
      PopShrinks(s);
      UnwindFreesAll(Pop(s), saved[1..]);
    } else if s.feature.isUseFrame {
      PopShrinks(s);
      assert Pop(s).frames == map[];
    }
  }

  class Task {
    var fn: Link
    var feature: Feature
    var frames: map<nat, FrameRec>
    var pool: set<nat>
    var returnValue: int

    ghost function State(): Context
      reads this
    {
      Context(fn, feature, frames, pool)
    }

    constructor (pool: set<nat>)
      ensures this.pool == pool && frames == map[]
    {
      this.pool, frames, fn, returnValue := pool, map[], Null, 0;
      feature := Feature(false, false, false, 0);
    }

    /** vsf_eda_start; a target or a return value makes the task use a frame. */
    method Start(func: nat, target: nat, localSize: nat, feature: Feature) returns (err: Err)
      requires frames == map[]
      modifies this`fn, this`feature, this`frames, this`pool
      ensures var useFrame := target != 0 || feature.hasReturnValue || feature.isUseFrame;
        && (err == NotEnoughResources <==> useFrame && old(pool) == {})
        && (err == Ok <==> !useFrame || old(pool) != {})
        && (err == Ok ==> this.feature == feature.(isUseFrame := useFrame) && (useFrame <==> |frames| == 1))
      ensures err == Ok ==> Root(State()) && Nested(State(), []) && Target(State()) == Some(func)
      ensures err == Ok && fn.Frame? ==> frames[fn.f] == FrameRec(Null, func, this.feature, localSize, target)
      ensures err == Ok ==> RunsAt(State(), Level(func, target, localSize, this.feature))
      ensures pool + frames.Keys == old(pool) && pool !! frames.Keys
    {
      fn := Handler(func);
      var useFrame := target != 0 || feature.hasReturnValue || feature.isUseFrame;
      if !useFrame {
        this.feature := feature;
        return Ok;
      }
      if pool == {} {
        return NotEnoughResources;
      }
      var frame :| frame in pool;
      pool := pool - {frame};
      frames := map[frame := FrameRec(Null, func, feature.(isUseFrame := true), localSize, target)];
      this.feature := feature.(isUseFrame := true);
      fn := Frame(frame);
      return Ok;
    }

    /** __vsf_eda_call_eda_ex_prepare with is_sub_call; fails without a free frame. */
    method CallPrepare(c: Call, ghost saved: seq<Context>) returns (err: Err)
      requires Nested(State(), saved)
      modifies this`fn, this`feature, this`frames, this`pool
      ensures old(pool) == {} <==> err == NotEnoughResources
      ensures err == NotEnoughResources ==> State() == old(State())
      ensures err != NotEnoughResources ==> err == Ok && Nested(State(), [old(State())] + saved)
      ensures err == Ok ==> fn.Frame? && fn.f in old(pool) && State() == Push(old(State()), fn.f, c)
      ensures err == Ok ==> Target(State()) == Some(c.func) && feature == c.feature.(isUseFrame := true)
      ensures err == Ok ==>
        fn.f in frames && frames[fn.f] == FrameRec(old(fn), c.func, old(feature), c.localSize, c.param)
    {
      if pool == {} {
        return NotEnoughResources;
      }
      var frame :| frame in pool;
      StepNested(State(), SubCall(frame, c), saved);
      pool := pool - {frame};
      frames := frames[frame := FrameRec(fn, 0, Feature(false, false, false, 0), c.localSize, 0)];
      fn := Frame(frame);
      frames := frames[frame := frames[frame].(func := c.func, feature := feature)];
      feature := c.feature;
      feature := feature.(isUseFrame := true);
      frames := frames[frame := frames[frame].(param := c.param)];
      err := Ok;
    }

    /** __vsf_eda_ensure_frame_used; `f` is the frame it has taken, if any. */
    method EnsureFrame(param: nat) returns (err: Err, ghost f: nat)
      requires if feature.isUseFrame then HasTop(State()) else fn.Handler?
      modifies this`fn, this`feature, this`frames, this`pool
      ensures err == NotEnoughResources <==> !old(feature).isUseFrame && old(pool) == {}
      ensures err == NotEnoughResources || (err == Ok && HasTop(State()))
      ensures err == NotEnoughResources || old(feature).isUseFrame ==> State() == old(State())
      ensures err == Ok && !old(feature).isUseFrame ==> f in old(pool) && State() == Covered(old(State()), f, param)
    {
      f := 0;
      if !feature.isUseFrame {
        if pool == {} {
          return NotEnoughResources, f;
        }
        var frame :| frame in pool;
        pool := pool - {frame};
        frames := frames[frame := FrameRec(Null, fn.h, feature, 0, param)];
        feature := feature.(isUseFrame := true);
        fn := Frame(frame);
        f := frame;
      }
      err := Ok;
    }

    /** vsf_eda_target_set */
    method SetTarget(param: nat) returns (err: Err, ghost f: nat)
      requires if feature.isUseFrame then HasTop(State()) else fn.Handler?
      modifies this`fn, this`feature, this`frames, this`pool
      ensures err == NotEnoughResources <==> !old(feature).isUseFrame && old(pool) == {}
      ensures err == NotEnoughResources ==> State() == old(State())
      ensures err != NotEnoughResources ==>
        err == Ok && Enabled(old(State()), TargetSet(f, param)) && State() == Apply(old(State()), TargetSet(f, param))
      ensures err == Ok ==> HasTop(State()) && frames[fn.f].param == param && Target(State()) == old(Target(State()))
    {
      err, f := EnsureFrame(param);
      if err == Ok {
        frames := frames[fn.f := frames[fn.f].(param := param)];
      }
    }

    /** __vsf_eda_call_eda_ex_prepare without is_sub_call. */
    method JumpPrepare(c: Call) returns (err: Err, ghost f: nat)
      requires if feature.isUseFrame then HasTop(State()) else fn.Handler?
      modifies this`fn, this`feature, this`frames, this`pool
      ensures err == NotEnoughResources <==> !old(feature).isUseFrame && old(pool) == {}
      ensures err == NotEnoughResources ==> State() == old(State())
      ensures err != NotEnoughResources ==>
        err == Ok && Enabled(old(State()), GoTo(f, c)) && State() == Apply(old(State()), GoTo(f, c))
      ensures err == Ok ==> HasTop(State()) && Target(State()) == Some(c.func)
      ensures err == Ok ==> feature == c.feature.(isUseFrame := true)
      ensures err == Ok ==> frames[fn.f].param == c.param && frames[fn.f].localSize == c.localSize
    {
      err, f := EnsureFrame(0);
      if err == Ok {
        frames := frames[fn.f := frames[fn.f].(func := c.func, feature := feature, localSize := c.localSize)];
        feature := c.feature.(isUseFrame := true);
        frames := frames[fn.f := frames[fn.f].(param := c.param)];
      }
    }

    /** __vsf_eda_return; true when the task has ended. */
    method ReturnValue(v: int) returns (ended: bool)
      requires CanReturn(State())
      modifies this
      ensures returnValue == v
      ensures (State(), if ended then Terminated else Resumed) == Returned(old(State()))
    {
      returnValue := v;
      var frame: Link := Null;
      if feature.isUseFrame {
        var top := fn.f;
        fn := frames[top].next;
        feature := frames[top].feature;
        frames, pool := frames - {top}, pool + {top};
        if feature.isUseFrame {
          frame := fn;
        } else {
          return false;
        }
      }
      if frame != Null {
        if frames[frame.f].next == Null && !frames[frame.f].feature.isUseFrame {
          feature := frames[frame.f].feature;
          frames, pool := frames - {frame.f}, pool + {frame.f};
        }
        return false;
      }
      var _ := Fini();
      return true;
    }

    /**
     vsf_eda_fini: the loop that frees the frames. Each frame in use is freed exactly once; the number of frames in
     use is the termination measure.
     */
    method Fini() returns (freed: seq<nat>)
      modifies this`fn, this`feature, this`frames, this`pool
      ensures State() == Unwind(old(State()))
      ensures NoDup(freed) && frames.Keys == old(frames.Keys) - set x | x in freed
    {
      freed := [];
      while feature.isUseFrame && fn.Frame? && fn.f in frames
        invariant Unwind(State()) == Unwind(old(State()))
        invariant NoDup(freed) && frames.Keys == old(frames.Keys) - set x | x in freed
        invariant forall x :: x in freed ==> x !in frames
        decreases |frames|
      {
        PopShrinks(State());
        var top := fn.f;
        fn := frames[top].next;
        feature := frames[top].feature;
        frames, pool := frames - {top}, pool + {top};
        freed := freed + [top];
      }
    }
  }
}
