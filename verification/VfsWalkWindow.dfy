/**
 Opening is not atomic either: __vk_file_open (source/component/fs/vsf_fs.c) looks a child up, gets its answer by one
 event, in which the parent is set, and takes its reference in another. This module says what others may do in between.
 */
module VfsWalkWindow {
  import opened Basics
  import opened VfsTree
  import opened VfsRuns

  /** Taking the reference keeps the law if and only if the directory still lists the child, as its parent. */
  lemma EnterExact(s: Fs, h: nat, k: nat)
    requires Good(s) && h < |s.open|
    ensures Good(Entered(s, h, k)) <==> Lists(s, h, k) && s.nodes[k].parent == Some(s.open[h][0])
  {
    var r, c := Entered(s, h, k), s.open[h];
    assert IsChain(s.nodes, c);
    if Lists(s, h, k) && s.nodes[k].parent == Some(c[0]) {
      StepGood(s, Into(h, k));
    } else {
      assert r.open[h] == [k] + c;
      assert !UpAt(r.nodes, r.open[h], 0);
      assert !IsChain(r.nodes, r.open[h]);
    }
  }

  /**
   Setting the parent of a child that was found some time ago keeps the law if and only if the directory still lists it,
   or nobody has it or anything below it open.
   */
  lemma LookExact(s: Fs, h: nat, k: nat)
    requires Good(s) && h < |s.open| && s.open[h] != [] && k in s.nodes && k != ROOT
    ensures Good(Looked(s, h, k)) <==> Lists(s, h, k) || Below(s.open, k) == 0
  {
    if Lists(s, h, k) {
      StepGood(s, Look(h, k));
    } else if Below(s.open, k) == 0 {
      LookUnused(s, h, k);
    } else {
      LookWrong(s, h, k);
    }
  }

  lemma LookUnused(s: Fs, h: nat, k: nat)
    requires Good(s) && h < |s.open| && s.open[h] != [] && k in s.nodes && k != ROOT && Below(s.open, k) == 0
    ensures Good(Looked(s, h, k))
  {
    var r := Looked(s, h, k);
    SameLinks(s.nodes, r.nodes);
    RootedSame(s.nodes, r.nodes);
    BelowWitness(s.open, k);
    forall i | 0 <= i < |s.open| ensures IsChain(r.nodes, s.open[i]) {
      forall j | 0 <= j < |s.open[i]| ensures UpAt(r.nodes, s.open[i], j) { assert UpAt(s.nodes, s.open[i], j); }
    }
  }

  lemma LookWrong(s: Fs, h: nat, k: nat)
    requires Good(s) && h < |s.open| && s.open[h] != [] && k in s.nodes && k != ROOT && Below(s.open, k) > 0
    requires !Lists(s, h, k)
    ensures !AllChains(Looked(s, h, k).nodes, s.open)
  {
    BelowWitness(s.open, k);
    var i :| 0 <= i < |s.open| && k in s.open[i];
    var j :| 0 <= j < |s.open[i]| && s.open[i][j] == k;
    ChainEnd(s.nodes, s.open[i], j);
    assert UpAt(s.nodes, s.open[i], j);
    assert !UpAt(Looked(s, h, k).nodes, s.open[i], j);
  }

  /** One step does not change the parent of a node that stays in its directory. */
  lemma ParentStays(s: Fs, step: Step, k: nat, d: nat)
    requires Good(s) && Enabled(s, step) && ChildOf(s.nodes, k, d) && s.nodes[k].parent == Some(d)
    requires ChildOf(Apply(s, step).nodes, k, d)
    ensures k in Apply(s, step).nodes && Apply(s, step).nodes[k].parent == Some(d)
  {
    assert k in Apply(s, step).nodes by { StepGood(s, step); }
    if step.Close? { CloseKeepsNode(s.nodes, s.open[step.handle], k); } else { SameParent(s, step, k); }
  }

  lemma SameParent(s: Fs, step: Step, k: nat)
    requires Enabled(s, step) && !step.Close? && k in s.nodes && k in Apply(s, step).nodes
    ensures Apply(s, step).nodes[k].parent ==
      if step.Look? && step.child == k then Some(s.open[step.handle][0]) else s.nodes[k].parent
  {
  }

  /**
   Which step breaks the window: with one step of somebody else between the answer and the reference, the count law
   holds at the end if and only if the step leaves the child in the list of its directory.
   */
  lemma WalkWindowExact(s: Fs, h: nat, k: nat, step: Step)
    requires Good(s) && Lists(s, h, k) && s.nodes[k].parent == Some(s.open[h][0])
    requires Enabled(s, step) && Leaves(step, h)
    ensures var r, j := Apply(s, step), Moved(step, h);
      && j < |r.open| && r.open[j] == s.open[h]
      && (Good(Entered(r, j, k)) <==> ChildOf(r.nodes, k, s.open[h][0]))
  {
    StepGood(s, step);
    HandleStays(s, step, h);
    EnterExact(Apply(s, step), Moved(step, h), k);
    if ChildOf(Apply(s, step).nodes, k, s.open[h][0]) { ParentStays(s, step, k, s.open[h][0]); }
  }

  /** The same over any steps in between: the reference keeps the law exactly under the condition of `EnterExact`. */
  lemma WalkWindowRun(states: seq<Fs>, steps: seq<Step>, n: nat, h: nat, k: nat)
    requires IsRun(states, steps) && n <= |steps| && h < |states[n].open|
    ensures var s := states[n];
      Good(Entered(s, h, k)) <==> Lists(s, h, k) && s.nodes[k].parent == Some(s.open[h][0])
  {
    RunGood(states, steps, n);
    EnterExact(states[n], h, k);
  }

  /** The failing cases: the child is unlinked while nobody has it open, or moved to another directory. */
  lemma UnlinkedMeanwhile(s: Fs, h: nat, k: nat)
    requires Good(s) && Lists(s, h, k) && MayUnlink(s.nodes, k) && Below(s.open, k) == 0
    ensures var step := Unlink(s.open[h][0], k);
      && Enabled(s, step) && k !in Apply(s, step).nodes && Apply(s, step).open == s.open
      && !Good(Entered(Apply(s, step), h, k))
  {
    var step := Unlink(s.open[h][0], k);
    StepGood(s, step);
    UnlinkedInv(s, s.open[h][0], k);
    EnterExact(Apply(s, step), h, k);
  }

  lemma MovedMeanwhile(s: Fs, h: nat, k: nat, e: nat, name: string)
    requires Good(s) && Lists(s, h, k) && e != s.open[h][0] && Enabled(s, Rename(s.open[h][0], k, e, name))
    ensures !Good(Entered(Apply(s, Rename(s.open[h][0], k, e, name)), h, k))
  {
    var d := s.open[h][0];
    var r := Apply(s, Rename(d, k, e, name));
    StepGood(s, Rename(d, k, e, name));
    RenamedLists(s.nodes, r.nodes, d, k, e, name);
    EnterExact(r, h, k);
  }
}
