/**
 The ring buffer of source/kernel/vsf_evtq_array.c, in place over its slot array, proved to be the bounded queue of
 `EventQueueArray`.
 */
module EventQueueArrayCode {
  import opened Basics
  import opened EventQueueArray
  import opened EventQueueArrayRuns
  import Bits

  class Ring {
    const bitsize: nat
    const node: array<Slot>
    var head: nat
    var tail: nat
    var eda: seq<Task>
    /** The slot poll has advanced over but not read yet, and the task it dispatches. */
    var fetched: Option<nat>
    var cur: Option<nat>
    /** The task poll has counted down and is about to look at again. */
    var ending: Option<nat>

    ghost predicate Shape()
      reads this
    {
      && bitsize <= 8 && node.Length == Bits.Pow2(bitsize)
      && head < node.Length && tail < node.Length
      && (ending.Some? ==> cur.None? && fetched.None?)
      && (fetched.Some? ==> cur.None? && fetched.value < node.Length && head == After(fetched.value))
    }

    /** Index arithmetic of the code: `(i + 1) & mask`. */
    function After(i: nat): (r: nat)
      requires i < node.Length
      ensures r < node.Length
    {
      (i + 1) % node.Length
    }

    /** The occupied slots, oldest first. */
    ghost function Contents(): (r: seq<Slot>)
      requires Shape()
      reads this, node
      ensures |r| < node.Length && |r| == Count()
    {
      if head <= tail then node[head..tail] else node[head..] + node[..tail]
    }

    /** Occupied slots. */
    function Count(): (n: nat)
      requires Shape()
      reads this
      ensures n < node.Length && (n == 0 <==> head == tail) && tail == At(n)
    {
      if head <= tail then tail - head else tail + node.Length - head
    }

    /** Where they are in the ring. */
    lemma SlotAt(i: nat)
      requires Shape() && i < |Contents()|
      ensures Contents()[i] == node[At(i)]
    {
    }

    function At(i: nat): (r: nat)
      requires head < node.Length && i < node.Length
      reads this
      ensures r < node.Length
    {
      if head + i < node.Length then head + i else head + i - node.Length
    }

    /** The queue the ring stands for. */
    ghost function Abs(): Queue
      requires Shape()
      reads this, node
    {
      Queue(node.Length - 1, Contents(), eda,
            if fetched.Some? then Fetched(node[fetched.value])
            else if cur.Some? then Dispatching(cur.value)
            else if ending.Some? then Ending(ending.value) else Idle)
    }

    /** Shape, and every task the queue refers to exists. */
    ghost predicate Valid()
      reads this, node
    {
      && Shape()
      && (cur.Some? ==> cur.value < |eda|) && (ending.Some? ==> ending.value < |eda|)
      && (fetched.Some? ==> KnownSlot(node[fetched.value], |eda|))
      && forall i :: 0 <= i < |Contents()| ==> KnownSlot(Contents()[i], |eda|)
    }

    constructor (bitsize: nat, node: array<Slot>, tasks: nat)
      requires bitsize <= 8 && node.Length == Bits.Pow2(bitsize)
      ensures Valid() && Inv(Abs()) && this.node == node && this.bitsize == bitsize
      ensures Abs() == Queue(Bits.Pow2(bitsize) - 1, [], seq(tasks, _ => Task(0, false, false, false, 0, 0)), Idle)
    {
      this.bitsize, this.node := bitsize, node;
      head, tail := 0, 0;
      eda := seq(tasks, _ => Task(0, false, false, false, 0, 0));
      fetched, cur, ending := None, None, None;
    }

    /** __vsf_evtq_post: the slot poll is still to read is not overwritten, since one slot always stays free. */
    method PostEvent(t: nat, evt: int, force: bool) returns (err: Err)
      requires Valid() && t < |eda|
      modifies this`tail, this`eda, node
      ensures Valid() && Abs() == Apply(old(Abs()), EventQueueArray.Post(t, evt, force))
      ensures err == Ok || err == Fail || err == NotEnoughResources
      ensures err == Fail <==> old(eda[t].cnt) != 0 && old(eda[t].isLimited) && !force
      ensures err == NotEnoughResources <==> err != Fail && |old(Contents())| == Bits.Pow2(bitsize) - 1
      ensures err == Ok ==> Contents() == old(Contents()) + [Slot(Some(t), evt)]
      ensures err != Ok ==> Abs() == old(Abs())
    {
      if eda[t].cnt != 0 && eda[t].isLimited && !force {
        return Fail;
      }
      var done := AppendKnown(Slot(Some(t), evt));
      if !done {
        return NotEnoughResources;
      }
      eda := eda[t := eda[t].(cnt := Inc(eda[t].cnt))];
      err := Ok;
    }

    method AppendKnown(x: Slot) returns (done: bool)
      requires Valid() && KnownSlot(x, |eda|)
      modifies this`tail, node
      ensures Valid() && done == (|old(Contents())| < node.Length - 1)
      ensures Contents() == if done then old(Contents()) + [x] else old(Contents())
      ensures Abs().phase == old(Abs()).phase
    {
      done := Append(x);
    }

    /** The ring part of __vsf_evtq_post. */
    method Append(x: Slot) returns (done: bool)
      requires Shape()
      modifies this`tail, node
      ensures Shape() && done == (|old(Contents())| < node.Length - 1)
      ensures Contents() == if done then old(Contents()) + [x] else old(Contents())
      ensures fetched.Some? ==> node[fetched.value] == old(node[fetched.value])
    {
      WrapNext(tail, node.Length);
      if fetched.Some? { WrapNext(fetched.value, node.Length); }
      var next := After(tail);
      if next == head {
        return false;
      }
      ghost var before := Contents();
      node[tail] := x;
      tail := next;
      assert Contents() == before + [x];
      return true;
    }

    /** vsf_evtq_poll, up to the end of the first line of the loop body: the slot is left before it is read. */
    method FetchSlot()
      requires Valid() && Enabled(Abs(), Fetch)
      modifies this`head, this`fetched
      ensures Valid() && Abs() == Apply(old(Abs()), Fetch)
    {
      WrapNext(head, node.Length);
      ghost var before := Contents();
      assert KnownSlot(before[0], |eda|);
      fetched := Some(head);
      head := After(head);
      assert Contents() == before[1..];
    }

    /** vsf_evtq_poll: read the slot; a cleaned slot is skipped. */
    method ReadSlot() returns (evt: Option<int>)
      requires Valid() && Enabled(Abs(), Read)
      modifies this`fetched, this`cur
      ensures Valid() && Abs() == Apply(old(Abs()), Read)
      ensures evt == if old(Abs()).phase.slot.eda.Some? && !eda[old(Abs()).phase.slot.eda.value].isToExit
                     then Some(old(Abs()).phase.slot.evt) else None
    {
      var slot := node[fetched.value];
      fetched := None;
      cur := slot.eda;
      evt := if slot.eda.Some? && !eda[slot.eda.value].isToExit then Some(slot.evt) else None;
    }

    /** vsf_evtq_poll, after the handler. */
    method ReleaseTask()
      requires Valid() && Enabled(Abs(), Release)
      modifies this`cur, this`ending, this`eda
      ensures Valid() && Abs() == Apply(old(Abs()), Release)
    {
      ghost var before := Contents();
      var t := cur.value;
      cur, ending := None, cur;
      var e := eda[t];
      eda := eda[t := e.(cnt := Dec(e.cnt))];
      assert Contents() == before;
    }

    /** vsf_evtq_poll, outside protection: a task that is to exit terminates when nothing refers to it any more. */
    method SettleTask()
      requires Valid() && Enabled(Abs(), Settle)
      modifies this`ending, this`eda
      ensures Valid() && Abs() == Apply(old(Abs()), Settle)
    {
      ghost var before := Contents();
      var t := ending.value;
      ending := None;
      var e := eda[t];
      if e.isToExit && e.cnt == 0 {
        e := e.(terminated := e.terminated + 1);
      }
      eda := eda[t := e];
      assert Contents() == before;
    }

    /** vsf_evtq_on_eda_fini, its test; true if the mark is to follow. */
    method TestExit(t: nat) returns (mark: bool)
      requires Valid() && t < |eda|
      modifies this`eda
      ensures Valid() && Abs() == Apply(old(Abs()), FiniTest(t)) && (mark ==> eda[t].leaving)
      ensures mark <==> old(eda[t].cnt) != 0
    {
      ghost var before := Contents();
      var e := eda[t];
      mark := e.cnt != 0;
      if mark {
        e := e.(leaving := true);
      } else {
        e := e.(terminated := e.terminated + 1);
      }
      eda := eda[t := e];
      assert Contents() == before;
    }

    /** vsf_evtq_on_eda_fini, its mark. */
    method MarkExit(t: nat)
      requires Valid() && t < |eda| && eda[t].leaving
      modifies this`eda
      ensures Valid() && Abs() == Apply(old(Abs()), FiniMark(t))
    {
      ghost var before := Contents();
      var e := eda[t].(isToExit := true, leaving := false);
      eda := eda[t := e];
      assert Contents() == before;
    }

    /** vsf_evtq_on_eda_fini; `between` is what others do between its test and its mark. */
    method OnEdaFini(t: nat, between: seq<EventQueueArray.Step>)
      requires Valid() && t < |eda|
      modifies this`tail, this`eda, node
      ensures Valid()
      ensures var m := Apply(old(Abs()), FiniTest(t));
        Abs() == if old(eda[t].cnt) != 0 then Do(DoAll(m, between), FiniMark(t)) else m
    {
      var mark := TestExit(t);
      if mark {
        PerformAll(between);
        Perform(FiniMark(t));
      }
    }

    /** A synchronization object limits a task to one event, or lifts the limit. */
    method LimitTask(t: nat, on: bool)
      requires Valid() && t < |eda|
      modifies this`eda
      ensures Valid() && Abs() == Apply(old(Abs()), SetLimited(t, on))
    {
      ghost var before := Contents();
      var e := eda[t].(isLimited := on);
      eda := eda[t := e];
      assert Contents() == before;
    }

    /** Anything a handler or another context does; what is not possible does nothing. */
    method Perform(step: EventQueueArray.Step)
      requires Valid()
      modifies this`tail, this`eda, node
      ensures Valid() && Abs() == Do(old(Abs()), step)
    {
      match step {
        case Post(t, evt, force) => if t < |eda| { var _ := PostEvent(t, evt, force); }
        case SetLimited(t, on) => if t < |eda| { LimitTask(t, on); }
        case FiniTest(t) => if t < |eda| { var _ := TestExit(t); }
        case FiniMark(t) => if t < |eda| && eda[t].leaving { MarkExit(t); }
        case CleanSlot(i) => PerformClean(i);
        case _ =>
      }
    }

    method PerformClean(i: nat)
      requires Valid()
      modifies this`eda, node
      ensures Valid() && Abs() == Do(old(Abs()), CleanSlot(i))
    {
      if cur.Some? && fetched.None? && i < Count() && node[At(i)].eda == cur {
        Blank(At(i), i);
      }
    }

    method PerformAll(acts: seq<EventQueueArray.Step>)
      requires Valid()
      modifies this`tail, this`eda, node
      ensures Valid() && Abs() == DoAll(old(Abs()), acts)
    {
      for i := 0 to |acts|
        invariant Valid() && Abs() == DoAll(old(Abs()), acts[..i])
      {
        assert acts[..i + 1][..i] == acts[..i];
        Perform(acts[i]);
      }
      assert acts[..|acts|] == acts;
    }

    /** Overwriting one occupied slot. */
    method Overwrite(idx: nat, ghost k: nat, x: Slot)
      requires Shape() && fetched.None? && k < |Contents()| && idx == At(k)
      modifies node
      ensures Contents() == old(Contents())[k := x]
    {
      ghost var before := Contents();
      node[idx] := x;
      assert Contents() == before[k := x];
    }

    /** Blanking one slot of the running task. */
    method Blank(idx: nat, ghost k: nat)
      requires Valid() && cur.Some? && fetched.None? && k < |Contents()| && Contents()[k].eda == cur && idx == At(k)
      modifies this`eda, node
      ensures Valid() && Abs() == Apply(old(Abs()), CleanSlot(k))
    {
      var t := cur.value;
      Overwrite(idx, k, node[idx].(eda := None));
      eda := eda[t := eda[t].(cleaned := eda[t].cleaned + 1)];
    }

    /**
     vsf_evtq_poll. Each entry of `script` is what happens in one pass: between leaving the slot and reading it, and
     from then to the end of the dispatch; posts, cleaning and exits, by the handler and by others.
     */
    method Poll(script: seq<Meanwhile>) returns (taken: seq<Slot>)
      requires Valid() && Inv(Abs()) && Abs().phase == Idle
      modifies this, node
      ensures Valid() && Abs() == PollAll(old(Abs()), script) && taken == Taken(old(Abs()), script)
      ensures Inv(Abs()) && Abs().phase == Idle && |taken| <= |script| && (|taken| < |script| ==> Contents() == [])
    {
      ghost var s := Abs();
      taken := [];
      PolledEnds(s, script, s, taken);
      while head != tail && |taken| < |script|
        invariant Valid() && Polled(s, script, Abs(), taken)
        decreases |script| - |taken|
      {
        PolledStep(s, script, Abs(), taken);
        var slot := PollPass(script[|taken|]);
        taken := taken + [slot];
      }
      PolledEnds(s, script, Abs(), taken);
    }

    /** One pass of the loop of vsf_evtq_poll. */
    method PollPass(w: Meanwhile) returns (slot: Slot)
      requires Valid() && Inv(Abs()) && Abs().phase == Idle && head != tail
      modifies this, node
      ensures Valid() && slot == old(Contents())[0] && Abs() == Pass(old(Abs()), w)
    {
      slot := TakeSlot(w.early);
      PerformAll(w.late);
      if cur.Some? {
        ReleaseTask();
      }
      PerformAll(w.last);
      if ending.Some? {
        SettleTask();
      }
    }

    /** The first half of a pass: leave the slot, then read it. */
    method TakeSlot(early: seq<EventQueueArray.Step>) returns (slot: Slot)
      requires Valid() && Inv(Abs()) && Abs().phase == Idle && head != tail
      modifies this, node
      ensures Valid() && fetched == None
      ensures slot == old(Contents())[0] && Abs() == Reading(old(Abs()), early)
    {
      StepInv(Abs(), Fetch);
      DoAllInv(Apply(Abs(), Fetch), early);
      FetchSlot();
      PerformAll(early);
      slot := node[fetched.value];
      var _ := ReadSlot();
    }

    /**
     vsf_evtq_clean_evt, called by the running task. `arrivals` are what other contexts do before each pass of the
     loop. The outcome is as if all of it came first and the snapshot was then cleaned at one stroke.
     */
    method CleanEvents(evt: int, arrivals: seq<seq<EventQueueArray.Step>>)
      requires Valid() && Inv(Abs()) && cur.Some? && fetched.None?
      requires forall i :: 0 <= i < |arrivals| ==> Foreign(arrivals[i])
      modifies this`tail, this`eda, node
      ensures Valid() && Inv(Abs()) && cur == old(cur)
      ensures CleanedTo(old(Abs()), |old(Contents())|, cur.value, evt, arrivals, Abs())
      ensures var s := old(Abs()); var n := |s.slots|;
        Abs().slots == BlankFirst(s.slots, n, cur.value, evt) + Gained(s, Arrivals(arrivals, n))
      ensures var slots := old(Contents()); |slots| <= |Contents()| && forall i :: 0 <= i < |slots| ==>
        var own := slots[i].eda == cur && (evt == 0 || slots[i].evt == evt);
        Contents()[i] == if own then Slot(None, slots[i].evt) else slots[i]
    {
      ghost var s := Abs();
      CleanLoop(evt, arrivals);
      CleanedContents(s, cur.value, evt, arrivals, Abs());
    }

    method CleanLoop(evt: int, arrivals: seq<seq<EventQueueArray.Step>>)
      requires Valid() && Inv(Abs()) && cur.Some? && fetched.None?
      requires forall i :: 0 <= i < |arrivals| ==> Foreign(arrivals[i])
      modifies this`tail, this`eda, node
      ensures Valid() && CleanedTo(old(Abs()), |old(Contents())|, cur.value, evt, arrivals, Abs())
    {
      ghost var s := Abs();
      var idx, stop, k := head, tail, 0;
      CleanStart(s, cur.value, evt, arrivals);
      while idx != stop
        invariant Cleaning(s, k, idx, stop, evt, arrivals)
        decreases |s.slots| - k
      {
        AtDistinct(k, |s.slots|);
        idx := ArriveAndClean(idx, stop, k, evt, s, arrivals);
        k := k + 1;
      }
      AtDistinct(k, |s.slots|);
    }

    /** Where the loop is: at slot `k` of the snapshot, and it stops behind the snapshot. */
    ghost predicate Cleaning(s: Queue, k: nat, idx: nat, stop: nat, evt: int, arrivals: seq<seq<EventQueueArray.Step>>)
      reads this, node
    {
      && Valid() && cur.Some? && k <= |s.slots| <= Count() && idx == At(k) && stop == At(|s.slots|)
      && CleanedTo(s, k, cur.value, evt, arrivals, Abs())
    }

    lemma AtDistinct(k: nat, n: nat)
      requires Shape() && k <= n <= Count()
      ensures At(k) == At(n) <==> k == n
    {
    }

    method ArriveAndClean(idx: nat, stop: nat, k: nat, evt: int, ghost s: Queue,
                          arrivals: seq<seq<EventQueueArray.Step>>)
      returns (next: nat)
      requires Cleaning(s, k, idx, stop, evt, arrivals) && k < |s.slots| && fetched.None?
      requires Inv(s) && s.phase == Dispatching(cur.value)
      requires forall i :: 0 <= i < |arrivals| ==> Foreign(arrivals[i])
      modifies this`tail, this`eda, node
      ensures Cleaning(s, k + 1, next, stop, evt, arrivals)
    {
      CleanPassed(s, k, cur.value, evt, arrivals, Abs());
      PerformAll(Batch(arrivals, k));
      next := CleanPass(idx, k, evt);
    }

    /** One pass of the loop of vsf_evtq_clean_evt. */
    method CleanPass(idx: nat, ghost k: nat, evt: int) returns (next: nat)
      requires Valid() && cur.Some? && fetched.None? && k < |Contents()| && idx == At(k)
      modifies this`eda, node
      ensures Valid() && Abs() == CleanOne(old(Abs()), k, cur.value, evt)
      ensures k + 1 < node.Length && next == At(k + 1)
    {
      SlotAt(k);
      if node[idx].eda == Some(cur.value) && (evt == VSF_EVT_NONE || node[idx].evt == evt) {
        Blank(idx, k);
      }
      next := Following(idx, k);
    }

    method Following(idx: nat, ghost k: nat) returns (next: nat)
      requires Shape() && k < |Contents()| && idx == At(k)
      ensures k + 1 < node.Length && next == At(k + 1)
    {
      WrapNext(idx, node.Length);
      next := After(idx);
    }
  }

  lemma WrapNext(i: nat, n: nat)
    requires i < n
    ensures (i + 1) % n == if i + 1 == n then 0 else i + 1
  {
    if i + 1 < n { assert (i + 1) % n == i + 1; }
  }
}
