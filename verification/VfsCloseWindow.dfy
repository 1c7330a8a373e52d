/**
 Closing is not atomic: __vk_file_close (source/component/fs/vsf_fs.c) drops a count to zero, then calls the close
 operation of the file system, and only when that has returned is the node freed. This module says what others may do
 in between.
 */
module VfsCloseWindow {
  import opened Basics
  import opened VfsTree
  import opened VfsRuns

  /** Handle `i` is the last reference to an unlinked node. */
  ghost predicate LastHandle(s: Fs, i: nat) {
    i < |s.open| && |s.open[i]| > 1 && s.open[i][0] in s.nodes && s.nodes[s.open[i][0]].ref == 1
  }

  function Zeroed(nodes: Nodes, k: nat): Nodes
    requires k in nodes
  {
    nodes[k := nodes[k].(ref := 0)]
  }

  /** The window: the count is zero, the node still there. The handle is not closed yet, but no longer used. */
  ghost function Closing(s: Fs, i: nat): Fs
    requires LastHandle(s, i)
  {
    s.(nodes := Zeroed(s.nodes, s.open[i][0]))
  }

  /** From the return of the close operation on: the node is freed, and the close goes on with its parent. */
  function Finished(s: Fs, i: nat): Fs
    requires i < |s.open| && |s.open[i]| > 1
  {
    var c := s.open[i];
    Fs(CloseFrom(Detach(s.nodes, c[0], c[1]), c[1..]), Without(s.open, i))
  }

  /** Nothing in between: the two halves are the close. */
  lemma HalvesAreClose(s: Fs, i: nat)
    requires Inv(s) && LastHandle(s, i)
    ensures Finished(Closing(s, i), i) == Closed(s, i)
  {
    var c := s.open[i];
    assert Detach(Zeroed(s.nodes, c[0]), c[0], c[1]) == Detach(s.nodes, c[0], c[1]);
  }

  /** Nobody else has the node open, or anything below it, and it is unlinked. */
  lemma OnlyHandle(s: Fs, i: nat)
    requires Inv(s) && LastHandle(s, i)
    ensures s.nodes[s.open[i][0]].toUnlink && s.open[i][0] != ROOT
    ensures forall j :: 0 <= j < |s.open| && j != i ==> s.open[i][0] !in s.open[j]
  {
    var x := s.open[i][0];
    BelowWithout(s.open, i, x);
    BelowWitness(Without(s.open, i), x);
    ChainEnd(s.nodes, s.open[i], 0);
    forall j | 0 <= j < |s.open| && j != i ensures x !in s.open[j] {
      var k := if j < i then j else j - 1;
      assert Without(s.open, i)[k] == s.open[j];
    }
  }

  /** The close of another chain does not depend on the count of a node outside it. */
  lemma {:induction false} CloseOther(nodes: Nodes, x: nat, c: seq<nat>)
    requires x in nodes && x !in c
    ensures x in CloseFrom(nodes, c) && CloseFrom(Zeroed(nodes, x), c) == Zeroed(CloseFrom(nodes, c), x)
    ensures CloseFrom(nodes, c)[x].ref == nodes[x].ref
    decreases |c|
  {
    if c == [] || c[0] !in nodes {
    } else if nodes[c[0]].ref - 1 > 0 || |c| == 1 {
      assert Bump(Zeroed(nodes, x), c, -1) == Zeroed(Bump(nodes, c, -1), x);
    } else {
      assert Detach(Zeroed(nodes, x), c[0], c[1]) == Zeroed(Detach(nodes, c[0], c[1]), x);
      CloseOther(Detach(nodes, c[0], c[1]), x, c[1..]);
    }
  }

  /** `m` is what the window makes of `r`: the count of `x` is zero instead of one. */
  ghost predicate InWindow(r: Fs, m: Fs, x: nat) {
    x in r.nodes && r.nodes[x].ref == 1 && m == r.(nodes := Zeroed(r.nodes, x))
  }

  /** An open that takes its reference on `x`. */
  predicate WalksOnto(step: Step, x: nat) {
    step.Into? && step.child == x
  }

  /** Seen from any other step, it makes no difference that the count is already zero. */
  lemma StepCommutes(s: Fs, i: nat, step: Step)
    requires Good(s) && LastHandle(s, i) && Leaves(step, i) && Enabled(s, step) && !WalksOnto(step, s.open[i][0])
    requires Enabled(Closing(s, i), step)
    ensures var r := Apply(s, step);
      && Moved(step, i) < |r.open| && r.open[Moved(step, i)] == s.open[i]
      && InWindow(r, Apply(Closing(s, i), step), s.open[i][0])
  {
    OnlyHandle(s, i);
    var x := s.open[i][0];
    match step
    case OpenRoot => OpenCommutes(s, i, [ROOT]);
    case OpenAgain(j) => OpenCommutes(s, i, s.open[j]);
    case GetParent(j) => OpenCommutes(s, i, s.open[j][1..]);
    case Close(j) => CloseOther(s.nodes, x, s.open[j]);
    case Look(h, k) => LookCommutes(s, i, h, k);
    case Into(h, k) => IntoCommutes(s, i, h, k);
    case Create(d, id, name, isDir) => CreateCommutes(s, i, d, id, name, isDir);
    case Unlink(d, k) => UnlinkCommutes(s, i, d, k);
    case Rename(d, k, e, name) => RenameCommutes(s, i, d, k, e, name);
  }

  lemma LookCommutes(s: Fs, i: nat, h: nat, k: nat)
    requires LastHandle(s, i) && h < |s.open| && s.open[h] != [] && k in s.nodes
    ensures InWindow(Looked(s, h, k), Looked(Closing(s, i), h, k), s.open[i][0])
  {
  }

  lemma IntoCommutes(s: Fs, i: nat, h: nat, k: nat)
    requires LastHandle(s, i) && h < |s.open| && i != h && k in s.nodes && k != s.open[i][0]
    ensures InWindow(Entered(s, h, k), Entered(Closing(s, i), h, k), s.open[i][0])
  {
  }

  lemma CreateCommutes(s: Fs, i: nat, d: nat, id: nat, name: string, isDir: bool)
    requires LastHandle(s, i) && d in s.nodes && id !in s.nodes
    ensures InWindow(Created(s, d, id, name, isDir), Created(Closing(s, i), d, id, name, isDir), s.open[i][0])
  {
    ListCommutes(s.nodes, s.open[i][0], d, s.nodes[d].children + [id]);
  }

  lemma ListCommutes(nodes: Nodes, x: nat, n: nat, kids: seq<nat>)
    requires x in nodes && n in nodes
    ensures var z := Zeroed(nodes, x);
      z[n := z[n].(children := kids)] == Zeroed(nodes[n := nodes[n].(children := kids)], x)
  {
  }

  lemma NameCommutes(nodes: Nodes, x: nat, n: nat, name: string)
    requires x in nodes && n in nodes
    ensures var z := Zeroed(nodes, x); z[n := z[n].(name := name)] == Zeroed(nodes[n := nodes[n].(name := name)], x)
  {
  }

  lemma OpenCommutes(s: Fs, i: nat, c: seq<nat>)
    requires LastHandle(s, i) && s.open[i][0] !in c
    ensures InWindow(Opened(s, c), Opened(Closing(s, i), c), s.open[i][0]) && Opened(s, c).open[i] == s.open[i]
  {
    var x := s.open[i][0];
    assert Bump(Zeroed(s.nodes, x), c, 1) == Zeroed(Bump(s.nodes, c, 1), x);
  }

  lemma UnlinkCommutes(s: Fs, i: nat, d: nat, k: nat)
    requires LastHandle(s, i) && d in s.nodes && k in s.nodes && k != s.open[i][0]
    ensures InWindow(Unlinked(s, d, k), Unlinked(Closing(s, i), d, k), s.open[i][0])
  {
    var x := s.open[i][0];
    assert Detach(Zeroed(s.nodes, x), k, d) == Zeroed(Detach(s.nodes, k, d), x);
  }

  lemma RenameCommutes(s: Fs, i: nat, d: nat, k: nat, e: nat, name: string)
    requires LastHandle(s, i) && d in s.nodes && k in s.nodes && e in s.nodes
    ensures InWindow(Renamed(s, d, k, e, name), Renamed(Closing(s, i), d, k, e, name), s.open[i][0])
  {
    var x := s.open[i][0];
    NameCommutes(s.nodes, x, k, name);
    var a := s.nodes[k := s.nodes[k].(name := name)];
    ListCommutes(a, x, d, Remove(a[d].children, k));
    var b := a[d := a[d].(children := Remove(a[d].children, k))];
    ListCommutes(b, x, e, b[e].children + [k]);
  }

  /** The count of the node plays no part in what is possible. */
  lemma EnabledSame(s: Fs, i: nat, step: Step)
    requires LastHandle(s, i)
    ensures Enabled(Closing(s, i), step) <==> Enabled(s, step)
  {
    var m := Closing(s, i);
    forall k, d ensures ChildOf(m.nodes, k, d) <==> ChildOf(s.nodes, k, d) {}
    if step.Rename? && step.newDir in s.nodes { AvoidsSame(s.nodes, m.nodes, step.newDir, step.child); }
  }

  lemma AvoidsSame(a: Nodes, b: Nodes, n: nat, k: nat)
    requires forall j, d :: ChildOf(a, j, d) <==> ChildOf(b, j, d)
    ensures Avoids(a, n, k) <==> Avoids(b, n, k)
  {
    forall p ensures IsPath(a, p) <==> IsPath(b, p) {
      forall i | 0 <= i < |p| - 1 ensures StepAt(a, p, i) <==> StepAt(b, p, i) {}
    }
  }

  /**
   Which step breaks the window: with one step of somebody else between the two halves of a close, the count law holds
   at the end if and only if the step is not an open that walks onto the dying node. In all other cases the outcome is
   that of the step followed by the close.
   */
  lemma CloseWindowExact(s: Fs, i: nat, step: Step)
    requires Good(s) && LastHandle(s, i) && Leaves(step, i) && Enabled(Closing(s, i), step)
    ensures var r, j := Apply(Closing(s, i), step), Moved(step, i);
      && j < |r.open| && r.open[j] == s.open[i]
      && (Good(Finished(r, j)) <==> !WalksOnto(step, s.open[i][0]))
      && (!WalksOnto(step, s.open[i][0]) ==> Enabled(s, step) && Finished(r, j) == Closed(Apply(s, step), j))
  {
    EnabledSame(s, i, step);
    if WalksOnto(step, s.open[i][0]) {
      WalkBreaks(s, i, step.handle);
    } else {
      StepCommutes(s, i, step);
      StepGood(s, step);
      HalvesAreClose(Apply(s, step), Moved(step, i));
      CloseGood(Apply(s, step), Moved(step, i));
    }
  }

  /** The new handle is on a node that is gone. */
  lemma WalkBreaks(s: Fs, i: nat, h: nat)
    requires Good(s) && LastHandle(s, i) && h != i && Enabled(Closing(s, i), Into(h, s.open[i][0]))
    ensures var r := Apply(Closing(s, i), Into(h, s.open[i][0]));
      i < |r.open| && r.open[i] == s.open[i] && !Good(Finished(r, i))
  {
    var x, r := s.open[i][0], Apply(Closing(s, i), Into(h, s.open[i][0]));
    var open, j := Without(r.open, i), if h < i then h else h - 1;
    assert open[j] == r.open[h] && open[j][0] == x;
    var c := r.open[i];
    GoneForGood(Detach(r.nodes, c[0], c[1]), c[1..], x);
    assert !UpAt(Finished(r, i).nodes, open[j], 0);
    assert !IsChain(Finished(r, i).nodes, open[j]);
  }

  /** The handle one level up. */
  function Lifted(s: Fs, i: nat): Fs
    requires i < |s.open| && |s.open[i]| > 1
  {
    Fs(Detach(s.nodes, s.open[i][0], s.open[i][1]), s.open[i := s.open[i][1..]])
  }

  /** The cascade is the close of a handle on the parent, so the same holds of the window at every level. */
  lemma CascadeLevel(s: Fs, i: nat)
    requires Good(s) && LastHandle(s, i)
    ensures Good(Lifted(s, i)) && Closed(s, i) == Closed(Lifted(s, i), i)
  {
    var c, r := s.open[i], Lifted(s, i);
    var left := Without(s.open, i);
    OnlyHandle(s, i);
    assert Without(r.open, i) == left;
    assert AllChains(s.nodes, left) && Counted(s.nodes, left, c) by { Reopened(s, i); }
    DetachSettles(s.nodes, left, c);
    ChildrenGone(s.nodes, left, c);
    assert UpAt(s.nodes, c, 0);
    RootedDetach(s.nodes, c[0], c[1]);
    forall j | 0 <= j < |r.open| ensures IsChain(r.nodes, r.open[j]) {
      if j != i {
        var k := if j < i then j else j - 1;
        assert left[k] == r.open[j];
      }
    }
    forall n | n in r.nodes
      ensures r.nodes[n].ref == Below(r.open, n) + Own(r.nodes[n])
      ensures r.nodes[n].toUnlink ==> Below(r.open, n) > 0
    {
      BelowWithout(r.open, i, n);
    }
  }
}
