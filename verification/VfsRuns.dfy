/** What every sequence of file operations keeps, and where the limits of the code lie. */
module VfsRuns {
  import opened Basics
  import opened VfsTree

  /**
   The operations on an unmounted tree. An open is `OpenRoot` or `OpenAgain` (a reference on the start directory and
   its ancestors), a `Look` and an `Into` for each path component found, and a `Close` of that handle if a component is
   missing. Other operations may come between any two of these.
   */
  datatype Step =
    | OpenRoot
    | OpenAgain(handle: nat)
    | GetParent(handle: nat)
    | Look(handle: nat, child: nat)
    | Into(handle: nat, child: nat)
    | Close(handle: nat)
    | Create(dir: nat, id: nat, name: string, isDir: bool)
    | Unlink(dir: nat, child: nat)
    | Rename(dir: nat, child: nat, newDir: nat, name: string)

  ghost predicate Good(s: Fs) {
    Inv(s) && AllRooted(s.nodes)
  }

  /** The handle is on a directory that lists the node. */
  predicate Lists(s: Fs, h: nat, k: nat) {
    h < |s.open| && s.open[h] != [] && ChildOf(s.nodes, k, s.open[h][0]) && k in s.nodes
  }

  ghost predicate Enabled(s: Fs, step: Step) {
    match step
    case OpenRoot => true
    case OpenAgain(i) => i < |s.open|
    case GetParent(i) => i < |s.open| && |s.open[i]| > 1
    case Look(h, k) => Lists(s, h, k)
    case Into(h, k) => Lists(s, h, k) && s.nodes[k].parent == Some(s.open[h][0])
    case Close(i) => i < |s.open|
    case Create(d, id, name, _) =>
      d in s.nodes && s.nodes[d].isDir && !s.nodes[d].toUnlink && id !in s.nodes && NameFree(s.nodes, d, name)
    case Unlink(d, k) => ChildOf(s.nodes, k, d) && k in s.nodes && MayUnlink(s.nodes, k)
    case Rename(d, k, e, name) =>
      && ChildOf(s.nodes, k, d) && k in s.nodes && e in s.nodes && s.nodes[e].isDir && NameFree(s.nodes, e, name)
      && MayMove(s, d, k, e)
  }

  ghost function Apply(s: Fs, step: Step): (r: Fs)
    requires Enabled(s, step)
  {
    match step
    case OpenRoot => Opened(s, [ROOT])
    case OpenAgain(i) => Opened(s, s.open[i])
    case GetParent(i) => Opened(s, s.open[i][1..])
    case Look(h, k) => Looked(s, h, k)
    case Into(h, k) => Entered(s, h, k)
    case Close(i) => Closed(s, i)
    case Create(d, id, name, isDir) => Created(s, d, id, name, isDir)
    case Unlink(d, k) => Unlinked(s, d, k)
    case Rename(d, k, e, name) => Renamed(s, d, k, e, name)
  }

  lemma RootChain(nodes: Nodes)
    requires Tree(nodes)
    ensures IsChain(nodes, [ROOT])
  {
    assert UpAt(nodes, [ROOT], 0);
  }

  /** The handles opened by open and get-parent start from chains that exist. */
  lemma OpenGood(s: Fs, c: seq<nat>)
    requires Good(s) && IsChain(s.nodes, c)
    ensures Good(Opened(s, c))
  {
    OpenedInv(s, c);
    RootedSame(s.nodes, Opened(s, c).nodes);
  }

  lemma CloseGood(s: Fs, i: nat)
    requires Good(s) && i < |s.open|
    ensures Good(Closed(s, i))
  {
    ClosedInv(s, i);
    Reopened(s, i);
    CloseRooted(s.nodes, Without(s.open, i), s.open[i]);
  }

  lemma CreateGood(s: Fs, step: Step)
    requires Good(s) && step.Create? && Enabled(s, step)
    ensures Good(Apply(s, step))
  {
    CreatedInv(s, step.dir, step.id, step.name, step.isDir);
    CreatedTree(s.nodes, Apply(s, step).nodes, step.dir, step.id);
    RootedCreate(s.nodes, Apply(s, step).nodes, step.dir, step.id);
  }

  lemma UnlinkGood(s: Fs, d: nat, k: nat)
    requires Good(s) && Enabled(s, Unlink(d, k))
    ensures Good(Unlinked(s, d, k))
  {
    UnlinkedInv(s, d, k);
    if s.nodes[k].ref <= 1 {
      Childless(s, k);
      RootedDetach(s.nodes, k, d);
    } else {
      RootedSame(s.nodes, Unlinked(s, d, k).nodes);
    }
  }

  /** Without handles below it, a directory whose children are all unlinked is empty. */
  lemma Childless(s: Fs, k: nat)
    requires Inv(s) && k in s.nodes && MayUnlink(s.nodes, k) && s.nodes[k].ref <= 1
    ensures s.nodes[k].children == []
  {
    if s.nodes[k].children != [] {
      var j := s.nodes[k].children[0];
      assert ChildOf(s.nodes, j, k);
      HandleBelowChild(s.nodes, s.open, j, k);
    }
  }

  lemma RenameGood(s: Fs, d: nat, k: nat, e: nat, name: string)
    requires Good(s) && ChildOf(s.nodes, k, d) && k in s.nodes && e in s.nodes && s.nodes[e].isDir
    requires NameFree(s.nodes, e, name) && MayMove(s, d, k, e)
    ensures Good(Renamed(s, d, k, e, name))
  {
    RenamedInv(s, d, k, e, name);
    var r := Renamed(s, d, k, e, name);
    RenamedLists(s.nodes, r.nodes, d, k, e, name);
    if d == e { RootedSame(s.nodes, r.nodes); } else { RootedMove(s.nodes, r.nodes, k, e); }
  }

  /** A node may be moved when nobody has it open, to a directory that is neither unlinked nor below it. */
  ghost predicate MayMove(s: Fs, d: nat, k: nat, e: nat)
    requires e in s.nodes
  {
    d != e ==> Below(s.open, k) == 0 && !s.nodes[e].toUnlink && Avoids(s.nodes, e, k)
  }

  lemma StepGood(s: Fs, step: Step)
    requires Good(s) && Enabled(s, step)
    ensures Good(Apply(s, step))
  {
    match step
    case OpenRoot => RootChain(s.nodes); OpenGood(s, [ROOT]);
    case OpenAgain(i) => OpenGood(s, s.open[i]);
    case GetParent(i) => ChainSuffix(s.nodes, s.open[i], 1); OpenGood(s, s.open[i][1..]);
    case Look(h, k) => LookedInv(s, h, k); RootedSame(s.nodes, Looked(s, h, k).nodes);
    case Into(h, k) => EnteredInv(s, h, k); RootedSame(s.nodes, Entered(s, h, k).nodes);
    case Close(i) => CloseGood(s, i);
    case Create(_, _, _, _) => CreateGood(s, step);
    case Unlink(d, k) => UnlinkGood(s, d, k);
    case Rename(d, k, e, name) => RenameGood(s, d, k, e, name);
  }

  // ---------- steps of somebody else ----------

  /** The step does not use handle `i`. */
  predicate Leaves(step: Step, i: nat) {
    step.OpenAgain? || step.GetParent? || step.Look? || step.Into? || step.Close? ==> step.handle != i
  }

  /** Where handle `i` is after the step. */
  function Moved(step: Step, i: nat): nat {
    if step.Close? && step.handle < i then i - 1 else i
  }

  lemma HandleStays(s: Fs, step: Step, i: nat)
    requires Enabled(s, step) && Leaves(step, i) && i < |s.open|
    ensures Moved(step, i) < |Apply(s, step).open| && Apply(s, step).open[Moved(step, i)] == s.open[i]
  {
  }

  // ---------- whole runs ----------

  ghost predicate Next(s: Fs, step: Step, r: Fs) {
    Good(s) ==> Enabled(s, step) && r == Apply(s, step)
  }

  /** Step `i` of a run. */
  ghost predicate NextAt(states: seq<Fs>, steps: seq<Step>, i: nat)
    requires i < |steps| < |states|
  {
    Next(states[i], steps[i], states[i + 1])
  }

  ghost predicate IsRun(states: seq<Fs>, steps: seq<Step>) {
    && |states| == |steps| + 1 && states[0] == Empty()
    && forall i :: 0 <= i < |steps| ==> NextAt(states, steps, i)
  }

  /** vk_fs_init: the root alone, with the reference that is never given back. */
  function Empty(): Fs {
    Fs(map[ROOT := VNode("", true, 1, false, None, [])], [])
  }

  lemma {:induction false} RunGood(states: seq<Fs>, steps: seq<Step>, n: nat)
    requires IsRun(states, steps) && n <= |steps|
    ensures Good(states[n])
  {
    if n == 0 {
      assert IsPath(Empty().nodes, [ROOT]);
    } else {
      RunGood(states, steps, n - 1);
      assert NextAt(states, steps, n - 1);
      StepGood(states[n - 1], steps[n - 1]);
    }
  }

  /**
   The count law, after any sequence of opens (successful or not), closes, get-parents, creates, unlinks and renames:
   each node's count is the number of open handles on it or below it, plus one for the root and for every created
   node that is not unlinked; every node can be reached from the root; sibling names are distinct.
   */
  lemma RefCountLaw(states: seq<Fs>, steps: seq<Step>, n: nat)
    requires IsRun(states, steps) && n <= |steps|
    ensures var s := states[n];
      && (forall k :: k in s.nodes ==> s.nodes[k].ref == Below(s.open, k) + (if s.nodes[k].toUnlink then 0 else 1))
      && (forall k :: k in s.nodes && s.nodes[k].toUnlink ==> Below(s.open, k) > 0)
      && (forall k :: k in s.nodes ==> Rooted(s.nodes, k))
      && (forall d, j, k :: ChildOf(s.nodes, j, d) && ChildOf(s.nodes, k, d) ==> (SameName(s.nodes, j, k) ==> j == k))
  {
    RunGood(states, steps, n);
  }

  /**
   A node disappears in a step exactly when it is unlinked, or is being unlinked, and no handle at or below it is left
   after the step: at the unlink itself if nobody has it open, and otherwise at the last close, once.
   */
  lemma FreedExactly(s: Fs, step: Step, n: nat)
    requires Good(s) && Enabled(s, step) && n in s.nodes
    ensures var r := Apply(s, step);
      n !in r.nodes <==> (s.nodes[n].toUnlink || (step.Unlink? && step.child == n)) && Below(r.open, n) == 0
  {
    var r := Apply(s, step);
    match step
    case OpenRoot => BelowAppend(s.open, [ROOT], n);
    case OpenAgain(i) => BelowAppend(s.open, s.open[i], n);
    case GetParent(i) => BelowAppend(s.open, s.open[i][1..], n);
    case Into(h, k) => BelowUpdate(s.open, h, [k] + s.open[h], n);
    case Close(i) =>
      ClosedInv(s, i);
      BelowWithout(s.open, i, n);
    case Unlink(d, k) => UnlinkedInv(s, d, k);
    case _ =>
  }

  // ---------- what the history of a node says ----------

  datatype Mark = Never | Made | Removed

  /** The last thing that the first `n` steps did to the entry of node `k`. */
  function LastMark(steps: seq<Step>, k: nat, n: nat): Mark
    requires n <= |steps|
  {
    if n == 0 then Never
    else if steps[n - 1].Create? && steps[n - 1].id == k then Made
    else if steps[n - 1].Unlink? && steps[n - 1].child == k then Removed
    else LastMark(steps, k, n - 1)
  }

  /** The name it was given last, by its creation or a rename. */
  function LastName(steps: seq<Step>, k: nat, n: nat): string
    requires n <= |steps|
  {
    if n == 0 then ""
    else if steps[n - 1].Create? && steps[n - 1].id == k then steps[n - 1].name
    else if steps[n - 1].Rename? && steps[n - 1].child == k then steps[n - 1].name
    else LastName(steps, k, n - 1)
  }

  /** Whether it was created as a directory. */
  function LastKind(steps: seq<Step>, k: nat, n: nat): bool
    requires n <= |steps|
  {
    if n == 0 then false
    else if steps[n - 1].Create? && steps[n - 1].id == k then steps[n - 1].isDir
    else LastKind(steps, k, n - 1)
  }

  /** A step changes the entry of a node that stays by an unlink or a rename of it only, and makes no other node. */
  lemma StepKeepsNode(s: Fs, step: Step, k: nat)
    requires Enabled(s, step) && k in Apply(s, step).nodes && !(step.Create? && step.id == k)
    ensures k in s.nodes
    ensures var x, y := s.nodes[k], Apply(s, step).nodes[k];
      && y.isDir == x.isDir && y.name == (if step.Rename? && step.child == k then step.name else x.name)
      && (y.toUnlink <==> x.toUnlink || (step.Unlink? && step.child == k))
  {
    match step
    case Close(i) => CloseKeepsNode(s.nodes, s.open[i], k);
    case _ =>
  }

  /** The node is in the tree as its history says. */
  ghost predicate AsMade(s: Fs, k: nat, mark: Mark, name: string, isDir: bool) {
    if k in s.nodes then
      && mark != Never && (s.nodes[k].toUnlink <==> mark == Removed)
      && s.nodes[k].name == name && s.nodes[k].isDir == isDir
    else mark != Made
  }

  lemma {:induction false} HistoryOf(states: seq<Fs>, steps: seq<Step>, k: nat, n: nat)
    requires IsRun(states, steps) && n <= |steps| && k != ROOT
    ensures AsMade(states[n], k, LastMark(steps, k, n), LastName(steps, k, n), LastKind(steps, k, n))
  {
    if n > 0 {
      HistoryOf(states, steps, k, n - 1);
      RunGood(states, steps, n - 1);
      assert NextAt(states, steps, n - 1);
      HistoryStep(states[n - 1], steps[n - 1], k);
    }
  }

  lemma HistoryStep(s: Fs, step: Step, k: nat)
    requires Good(s) && Enabled(s, step) && k != ROOT
    ensures var r := Apply(s, step);
      if step.Create? && step.id == k then
        k in r.nodes && !r.nodes[k].toUnlink && r.nodes[k].name == step.name && r.nodes[k].isDir == step.isDir
      else
        && (k in r.nodes ==> k in s.nodes)
        && (k in s.nodes && !s.nodes[k].toUnlink && !(step.Unlink? && step.child == k) ==> k in r.nodes)
        && (k in r.nodes ==>
              && r.nodes[k].isDir == s.nodes[k].isDir
              && r.nodes[k].name == (if step.Rename? && step.child == k then step.name else s.nodes[k].name)
              && (r.nodes[k].toUnlink <==> s.nodes[k].toUnlink || (step.Unlink? && step.child == k)))
  {
    if !(step.Create? && step.id == k) {
      if k in Apply(s, step).nodes { StepKeepsNode(s, step, k); }
      if k in s.nodes { FreedExactly(s, step, k); }
    }
  }

  /**
   What unlinking is for: over every run, a node is in the tree exactly if it was created and not unlinked since, or it
   was unlinked and a handle at or below it is still open; and it has the name and the kind it was given.
   */
  lemma InTreeExactly(states: seq<Fs>, steps: seq<Step>, k: nat, n: nat)
    requires IsRun(states, steps) && n <= |steps| && k != ROOT
    ensures var s, mark := states[n], LastMark(steps, k, n);
      && (k in s.nodes <==> mark == Made || (mark == Removed && Below(s.open, k) > 0))
      && (k in s.nodes ==> s.nodes[k].name == LastName(steps, k, n) && s.nodes[k].isDir == LastKind(steps, k, n))
  {
    HistoryOf(states, steps, k, n);
    RunGood(states, steps, n);
    if Below(states[n].open, k) > 0 { OpenIsThere(states[n], k); }
  }

  lemma OpenIsThere(s: Fs, k: nat)
    requires Inv(s) && Below(s.open, k) > 0
    ensures k in s.nodes
  {
    BelowWitness(s.open, k);
    var i :| 0 <= i < |s.open| && k in s.open[i];
    var j :| 0 <= j < |s.open[i]| && s.open[i][j] == k;
    ChainEnd(s.nodes, s.open[i], j);
  }

  // ---------- the conditions are exact ----------

  /**
   Unlinking keeps the law exactly when the node was not unlinked before (or the call does nothing because it still
   has other references) and all its children were: a second unlink with one handle left frees a node that is still
   open, and unlinking a directory before a child leaves the child without one, or a linked child in an unlinked one.
   */
  lemma UnlinkExact(s: Fs, d: nat, k: nat)
    requires Good(s) && ChildOf(s.nodes, k, d) && k in s.nodes
    ensures Good(Unlinked(s, d, k)) <==> MayUnlink(s.nodes, k) || (s.nodes[k].toUnlink && s.nodes[k].ref > 1)
  {
    var r := Unlinked(s, d, k);
    if MayUnlink(s.nodes, k) {
      UnlinkGood(s, d, k);
    } else if s.nodes[k].toUnlink && s.nodes[k].ref <= 1 {
      OpenNodeFreed(s, d, k);
    } else if !s.nodes[k].toUnlink {
      var j :| ChildOf(s.nodes, j, k) && j in s.nodes && !s.nodes[j].toUnlink;
      assert Rooted(s.nodes, k);
      NotOwnDir(s.nodes, k);
      if s.nodes[k].ref > 1 {
        assert ChildOf(r.nodes, j, k);
      } else {
        ChildLost(s, d, k, j);
      }
    }
  }

  lemma OpenNodeFreed(s: Fs, d: nat, k: nat)
    requires Inv(s) && ChildOf(s.nodes, k, d) && k in s.nodes && s.nodes[k].toUnlink && s.nodes[k].ref <= 1
    ensures !AllChains(Unlinked(s, d, k).nodes, s.open)
  {
    BelowWitness(s.open, k);
    var i :| 0 <= i < |s.open| && k in s.open[i];
    var j :| 0 <= j < |s.open[i]| && s.open[i][j] == k;
    assert !UpAt(Unlinked(s, d, k).nodes, s.open[i], j);
  }

  lemma ChildLost(s: Fs, d: nat, k: nat, j: nat)
    requires Good(s) && ChildOf(s.nodes, k, d) && k in s.nodes && ChildOf(s.nodes, j, k) && j in s.nodes
    requires !s.nodes[j].toUnlink && !s.nodes[k].toUnlink && s.nodes[k].ref <= 1
    ensures var r := Unlinked(s, d, k).nodes; j in r && !Rooted(r, j)
  {
    var r := Unlinked(s, d, k).nodes;
    assert Rooted(s.nodes, k);
    NotOwnDir(s.nodes, k);
    RemoveMembers(s.nodes[d].children, k);
    forall e ensures !ChildOf(r, j, e) {
      assert ChildOf(r, j, e) ==> ChildOf(s.nodes, j, e);
    }
    forall p | IsPath(r, p) ensures p[0] != j {
      if |p| > 1 { assert StepAt(r, p, 0); }
    }
  }

  /** Creating a file keeps the law exactly when the directory is not unlinked. */
  lemma CreateExact(s: Fs, d: nat, id: nat, name: string, isDir: bool)
    requires Good(s) && d in s.nodes && s.nodes[d].isDir && id !in s.nodes && NameFree(s.nodes, d, name)
    ensures Good(Created(s, d, id, name, isDir)) <==> !s.nodes[d].toUnlink
  {
    if s.nodes[d].toUnlink {
      assert ChildOf(Created(s, d, id, name, isDir).nodes, id, d);
    } else {
      CreateGood(s, Create(d, id, name, isDir));
    }
  }

  /**
   Moving a node to another directory keeps the law exactly when no handle is open on it or below it, the new directory
   is not unlinked, and it is not below the node.
   */
  lemma MoveExact(s: Fs, d: nat, k: nat, e: nat, name: string)
    requires Good(s) && ChildOf(s.nodes, k, d) && k in s.nodes && e in s.nodes && s.nodes[e].isDir
    requires NameFree(s.nodes, e, name)
    ensures Good(Renamed(s, d, k, e, name)) <==> MayMove(s, d, k, e)
  {
    var r := Renamed(s, d, k, e, name);
    if MayMove(s, d, k, e) {
      RenameGood(s, d, k, e, name);
    } else {
      RenamedLists(s.nodes, r.nodes, d, k, e, name);
      if Below(s.open, k) > 0 {
        MovedOpen(s, d, k, e, name);
      } else if s.nodes[e].toUnlink {
        assert ChildOf(r.nodes, k, e) && !r.nodes[k].toUnlink;
      } else if Rooted(r.nodes, k) {
        var p :| IsPath(r.nodes, p) && p[0] == k;
        MovedAvoids(s.nodes, r.nodes, k, e, p);
        assert false;
      }
    }
  }

  /** The parent pointer of an open node is not updated, and no longer leads to the directory that lists it. */
  lemma MovedOpen(s: Fs, d: nat, k: nat, e: nat, name: string)
    requires Good(s) && ChildOf(s.nodes, k, d) && k in s.nodes && e in s.nodes && s.nodes[e].isDir
    requires d != e && Below(s.open, k) > 0
    ensures !AllChains(Renamed(s, d, k, e, name).nodes, s.open)
  {
    var r := Renamed(s, d, k, e, name);
    RenamedLists(s.nodes, r.nodes, d, k, e, name);
    BelowWitness(s.open, k);
    var i :| 0 <= i < |s.open| && k in s.open[i];
    var j :| 0 <= j < |s.open[i]| && s.open[i][j] == k;
    ChainEnd(s.nodes, s.open[i], j);
    assert UpAt(s.nodes, s.open[i], j);
    assert !UpAt(r.nodes, s.open[i], j);
  }
}
