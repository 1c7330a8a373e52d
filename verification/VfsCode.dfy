/** The routines of source/component/fs/vsf_fs.c on the tree, with their loops over parents, children and the path. */
module VfsCode {
  import opened Basics
  import opened VfsTree
  import opened VfsPath
  import opened VfsRuns

  class Vfs {
    var nodes: Nodes
    /** The chains of the open handles. */
    ghost var open: seq<seq<nat>>

    ghost function State(): Fs
      reads this
    {
      Fs(nodes, open)
    }

    ghost predicate Sound()
      reads this
    {
      Inv(State()) && Named(nodes)
    }

    ghost predicate Valid()
      reads this
    {
      Sound() && AllRooted(nodes)
    }

    /** vk_fs_init */
    constructor ()
      ensures Valid() && open == [] && nodes == map[ROOT := VNode("", true, 1, false, None, [])]
    {
      nodes, open := map[ROOT := VNode("", true, 1, false, None, [])], [];
      assert IsPath(map[ROOT := VNode("", true, 1, false, None, [])], [ROOT]);
    }

    /** __vk_file_ref_parent and __vk_file_deref_parent: the loop over the parent pointers. */
    method AddToParents(file: nat, d: int, ghost c: seq<nat>)
      requires Tree(nodes) && IsChain(nodes, c) && c[0] == file && file in nodes
      modifies this`nodes
      ensures nodes == Bump(old(nodes), c[1..], d)
    {
      ChainEnd(nodes, c, 0);
      assert UpAt(nodes, c, 0);
      var f := nodes[file].parent;
      ghost var j := 1;
      assert nodes == Bump(nodes, c[1..1], d);
      while f.Some?
        invariant 1 <= j <= |c| && f == (if j < |c| then Some(c[j]) else None)
        invariant nodes == Bump(old(nodes), c[1..j], d)
        decreases |c| - j
      {
        NextUp(old(nodes), c, j, d);
        nodes := nodes[f.value := nodes[f.value].(ref := nodes[f.value].ref + d)];
        f := nodes[f.value].parent;
        j := j + 1;
      }
      assert c[1..j] == c[1..];
    }

    /** __vk_vfs_lookup_imp with a name. */
    method LookupChild(dir: nat, path: string) returns (child: Option<nat>)
      requires Tree(nodes) && dir in nodes
      ensures child == Lookup(nodes, nodes[dir].children, path)
    {
      var kids := nodes[dir].children;
      var i := 0;
      while i < |kids|
        invariant 0 <= i <= |kids|
        invariant Lookup(nodes, kids, path) == Lookup(nodes, kids[i..], path)
      {
        assert ChildOf(nodes, kids[i], dir);
        if IsMatch(path, nodes[kids[i]].name) {
          return Some(kids[i]);
        }
        i := i + 1;
      }
      return None;
    }

    /** __vk_file_close: the cascade from the closed file up to the first node that stays referenced. */
    method CloseFile(file: nat, ghost i: nat)
      requires Valid() && i < |open| && open[i][0] == file
      modifies this
      ensures Valid() && State() == Closed(old(State()), i)
    {
      CloseGood(State(), i);
      Cascade(file, i);
    }

    method Cascade(file: nat, ghost i: nat)
      requires Sound() && i < |open| && open[i][0] == file
      modifies this
      ensures Sound() && State() == Closed(old(State()), i)
    {
      ghost var left := Without(open, i);
      ghost var c := open[i];
      Reopened(State(), i);
      open := left;
      var f := file;
      while true
        invariant Tree(nodes) && AllChains(nodes, left) && IsChain(nodes, c) && Counted(nodes, left, c) && Named(nodes)
        invariant f == c[0] && open == left
        invariant CloseFrom(nodes, c) == CloseFrom(old(nodes), old(open)[i])
        decreases |c|
      {
        CloseRound(nodes, left, c);
        if nodes[f].ref - 1 > 0 {
          DropReference(f, c);
          return;
        }
        var parent := nodes[f].parent.value;
        nodes := Detach(nodes, f, parent);
        f := parent;
        c := c[1..];
      }
    }

    /** __vk_file_deref of a node that stays referenced, and of all its ancestors. */
    method DropReference(file: nat, ghost c: seq<nat>)
      requires Tree(nodes) && IsChain(nodes, c) && c[0] == file && file in nodes
      modifies this`nodes
      ensures nodes == Bump(old(nodes), c, -1)
    {
      TakeRef(nodes, c, -1);
      nodes := nodes[file := nodes[file].(ref := nodes[file].ref - 1)];
      AddToParents(file, -1, c);
    }

    /** vk_file_open before the walk. */
    method TakeReference(dir: nat, ghost c: seq<nat>)
      requires Tree(nodes) && IsChain(nodes, c) && c[0] == dir && dir in nodes
      modifies this
      ensures State() == Opened(old(State()), c)
    {
      TakeRef(nodes, c, 1);
      nodes := nodes[dir := nodes[dir].(ref := nodes[dir].ref + 1)];
      AddToParents(dir, 1, c);
      open := open + [c];
    }

    /** vk_file_get_parent */
    method ParentOf(file: nat, ghost i: nat) returns (parent: Option<nat>)
      requires Valid() && i < |open| && open[i][0] == file
      modifies this
      ensures Valid()
      ensures parent == None <==> |old(open[i])| == 1
      ensures parent == None ==> State() == old(State())
      ensures parent.Some? ==> parent.value == old(open[i][1]) && State() == Opened(old(State()), old(open[i][1..]))
    {
      ghost var c := open[i];
      assert IsChain(nodes, c);
      assert UpAt(nodes, c, 0);
      ChainEnd(nodes, c, 0);
      parent := nodes[file].parent;
      if parent.Some? {
        ChainSuffix(nodes, c, 1);
        assert UpAt(nodes, c, 1);
        OpenGood(State(), c[1..]);
        TakeReference(parent.value, c[1..]);
      }
    }

    /**
     vk_file_open: the walk along the path, and the close of the directory it got stuck in. The result is the abstract
     walk over the components; a failure leaves the tree as it was but for parent pointers.
     */
    method OpenFile(dir: nat, path: string, ghost c: seq<nat>) returns (err: Err, file: Option<nat>)
      requires Valid() && IsChain(nodes, c) && c[0] == dir && dir in nodes && nodes[dir].isDir
      modifies this
      ensures Valid()
      ensures (err, file) == Resolve(old(nodes), dir, Parse(path))
      ensures SameTree(old(nodes), nodes)
      ensures err == Ok ==> |open| == |old(open)| + 1 && open[..|old(open)|] == old(open)
      ensures err == Ok ==> open[|old(open)|] != [] && file == Some(open[|old(open)|][0])
      ensures err != Ok ==> open == old(open)
      ensures err != Ok ==> forall n :: n in nodes ==> nodes[n] == old(nodes)[n].(parent := nodes[n].parent)
    {
      OpenOutcome(State(), c, path);
      TakeReference(dir, c);
      err, file := FollowPath(dir, path);
      SameRooted(old(nodes), nodes);
    }

    /** The loop of __vk_file_open. */
    method FollowPath(dir: nat, path: string) returns (err: Err, file: Option<nat>)
      requires Walking(State()) && open[|open| - 1] != [] && Cur(State()) == dir
      modifies this
      ensures Named(nodes) && (State(), err) == Walk(old(State()), path)
      ensures if err == Ok then open != [] && open[|open| - 1] != [] && file == Some(Cur(State())) else file == None
    {
      var name, cur := path, dir;
      ghost var n := |open| - 1;
      while true
        invariant Walking(State()) && |open| == n + 1 && open[n] != [] && Cur(State()) == cur
        invariant Walk(State(), name) == Walk(old(State()), path)
        decreases |name|
      {
        WalkingCur(State());
        if name == [] {
          return Ok, Some(cur);
        }
        ghost var whole := name;
        if IsDiv(name[0]) {
          if !nodes[cur].isDir {
            Cascade(cur, n);
            return InvalidParameter, None;
          }
          name := name[1..];
          if name == [] {
            return Ok, Some(cur);
          }
        }
        var child := LookupChild(cur, name);
        if child == None {
          Cascade(cur, n);
          return NotAvailable, None;
        }
        assert ChildOf(nodes, child.value, cur);
        Follow(State(), child.value);
        name := name[|nodes[child.value].name|..];
        Step(child.value, cur);
        cur := child.value;
      }
    }

    /** The lookup result gets its parent, and a reference. */
    method Step(child: nat, cur: nat)
      requires open != [] && open[|open| - 1] != [] && Cur(State()) == cur && child in nodes
      modifies this
      ensures State() == Down(old(State()), child)
    {
      nodes := nodes[child := nodes[child].(parent := Some(cur))];
      nodes := nodes[child := nodes[child].(ref := nodes[child].ref + 1)];
      open := open[|open| - 1 := [child] + open[|open| - 1]];
    }

    /** __vk_vfs_create */
    method CreateFile(dir: nat, name: string, isDir: bool, id: nat) returns (err: Err)
      requires Valid() && dir in nodes && nodes[dir].isDir && id !in nodes && ValidName(name)
      modifies this`nodes
      ensures err == Ok <==> NameFree(old(nodes), dir, name)
      ensures err == Ok ==> (Valid() <==> !old(nodes)[dir].toUnlink)
      ensures err == Ok ==> id in nodes && nodes[id] == VNode(name, isDir, 1, false, None, [])
      ensures err == Ok ==> ChildOf(nodes, id, dir)
      ensures err == Ok ==> State() == Created(old(State()), dir, id, name, isDir)
      ensures err != Ok ==> err == AlreadyExists && nodes == old(nodes)
    {
      var found := LookupChild(dir, name);
      LookupIsName(nodes, dir, name);
      if found.Some? {
        return AlreadyExists;
      }
      CreateExact(State(), dir, id, name, isDir);
      var node := VNode(name, isDir, 0, false, None, []);
      nodes := nodes[dir := nodes[dir].(children := nodes[dir].children + [id])];
      nodes := nodes[id := node.(ref := node.ref + 1)];
      err := Ok;
    }

    /** __vk_vfs_unlink */
    method UnlinkFile(dir: nat, name: string) returns (err: Err, child: Option<nat>)
      requires Valid() && dir in nodes && ValidName(name)
      modifies this`nodes
      ensures err == NotAvailable <==> NameFree(old(nodes), dir, name)
      ensures err == NotAvailable ==> nodes == old(nodes)
      ensures err != NotAvailable ==> err == Ok && child.Some? && child.value in old(nodes)
      ensures err == Ok ==> old(nodes)[child.value].name == name && State() == Unlinked(old(State()), dir, child.value)
      ensures err == Ok ==> (child.value !in nodes <==> old(nodes)[child.value].ref <= 1)
      ensures err == Ok && child.value in nodes ==> nodes[child.value].toUnlink
      ensures err == Ok ==> var x := old(nodes)[child.value];
        Valid() <==> MayUnlink(old(nodes), child.value) || (x.toUnlink && x.ref > 1)
    {
      child := LookupChild(dir, name);
      LookupIsName(nodes, dir, name);
      if child == None {
        return NotAvailable, None;
      }
      assert ChildOf(nodes, child.value, dir);
      UnlinkExact(State(), dir, child.value);
      UnlinkChild(dir, child.value);
      err := Ok;
    }

    method UnlinkChild(dir: nat, child: nat)
      requires dir in nodes && child in nodes
      modifies this`nodes
      ensures State() == Unlinked(old(State()), dir, child)
    {
      if nodes[child].ref > 1 {
        if !nodes[child].toUnlink {
          nodes := nodes[child := nodes[child].(ref := nodes[child].ref - 1)];
          nodes := nodes[child := nodes[child].(toUnlink := true)];
        }
      } else {
        nodes := Detach(nodes, child, dir);
      }
    }

    /** __vk_vfs_rename; without a new name the node keeps its own. */
    method RenameFile(oldDir: nat, oldName: string, newDir: nat, newName: Option<string>)
      returns (err: Err, child: Option<nat>)
      requires Valid() && oldDir in nodes && newDir in nodes && nodes[newDir].isDir
      requires ValidName(oldName) && (newName.Some? ==> ValidName(newName.value))
      modifies this`nodes
      ensures var name := if newName.Some? then newName.value else oldName;
        && (err == AlreadyExists <==> !NameFree(old(nodes), newDir, name))
        && (err == NotAvailable <==> NameFree(old(nodes), newDir, name) && NameFree(old(nodes), oldDir, oldName))
        && (err == Ok ==> child.Some? && child.value in old(nodes) && old(nodes)[child.value].name == oldName
                          && State() == Renamed(old(State()), oldDir, child.value, newDir, name)
                          && child.value in nodes && nodes[child.value].name == name
                          && ChildOf(nodes, child.value, newDir)
                          && (Valid() <==> MayMove(old(State()), oldDir, child.value, newDir)))
      ensures err != Ok ==> nodes == old(nodes) && (err == AlreadyExists || err == NotAvailable)
    {
      var name := if newName.Some? then newName.value else oldName;
      child := LookupChild(oldDir, oldName);
      var taken := LookupChild(newDir, name);
      LookupIsName(nodes, oldDir, oldName);
      LookupIsName(nodes, newDir, name);
      if taken.Some? {
        return AlreadyExists, None;
      } else if child == None {
        return NotAvailable, None;
      }
      assert ChildOf(nodes, child.value, oldDir);
      RenamedValid(State(), oldDir, child.value, newDir, name);
      MoveChild(oldDir, child.value, newDir, name);
      err := Ok;
    }

    method MoveChild(oldDir: nat, child: nat, newDir: nat, name: string)
      requires oldDir in nodes && newDir in nodes && child in nodes
      modifies this`nodes
      ensures State() == Renamed(old(State()), oldDir, child, newDir, name)
    {
      nodes := nodes[child := nodes[child].(name := name)];
      if newDir != oldDir {
        nodes := nodes[oldDir := nodes[oldDir].(children := Remove(nodes[oldDir].children, child))];
        nodes := nodes[newDir := nodes[newDir].(children := nodes[newDir].children + [child])];
      }
    }
  }

  /** Success and failure of an open side by side. */
  lemma OpenOutcome(s: Fs, c: seq<nat>, path: string)
    requires Inv(s) && Named(s.nodes) && IsChain(s.nodes, c) && c[0] in s.nodes && s.nodes[c[0]].isDir
    ensures Walking(Opened(s, c)) && Cur(Opened(s, c)) == c[0]
    ensures var (r, err) := Walk(Opened(s, c), path); var (e, found) := Resolve(s.nodes, c[0], Parse(path));
      && err == e && Inv(r) && SameTree(s.nodes, r.nodes)
      && (err == Ok ==> |r.open| == |s.open| + 1 && r.open[..|s.open|] == s.open
                        && r.open[|s.open|] != [] && found == Some(Cur(r)))
      && (err != Ok ==> found == None && r.open == s.open)
      && (err != Ok ==> forall n :: n in r.nodes ==> r.nodes[n] == s.nodes[n].(parent := r.nodes[n].parent))
  {
    OpenResolves(s, c, path);
    if Walk(Opened(s, c), path).1 != Ok { FailedOpenChangesNothing(s, c, path); }
  }

  lemma SameRooted(a: Nodes, b: Nodes)
    requires SameTree(a, b) && AllRooted(a)
    ensures AllRooted(b)
  {
    forall d, k ensures ChildOf(a, k, d) ==> ChildOf(b, k, d) {}
    RootedSame(a, b);
  }

  lemma RenamedValid(s: Fs, d: nat, k: nat, e: nat, name: string)
    requires Good(s) && Named(s.nodes) && ValidName(name)
    requires ChildOf(s.nodes, k, d) && k in s.nodes && e in s.nodes && s.nodes[e].isDir && NameFree(s.nodes, e, name)
    ensures Named(Renamed(s, d, k, e, name).nodes)
    ensures Good(Renamed(s, d, k, e, name)) <==> MayMove(s, d, k, e)
  {
    MoveExact(s, d, k, e, name);
    RenamedLists(s.nodes, Renamed(s, d, k, e, name).nodes, d, k, e, name);
  }

  /** In a directory, a name without separators matches just the child of that name. */
  lemma LookupIsName(nodes: Nodes, dir: nat, name: string)
    requires Tree(nodes) && Named(nodes) && dir in nodes && ValidName(name)
    ensures Lookup(nodes, nodes[dir].children, name) == None <==> NameFree(nodes, dir, name)
    ensures var k := Lookup(nodes, nodes[dir].children, name); k.Some? ==> nodes[k.value].name == name
  {
    var kids := nodes[dir].children;
    assert ROOT !in kids by { assert ROOT in kids ==> ChildOf(nodes, ROOT, dir); }
    MatchIsHead(name, name);
    LookupIsChild(nodes, kids, name);
    ChildNamedFinds(nodes, kids, name);
    assert forall k :: ChildOf(nodes, k, dir) <==> k in kids;
  }

  /** One round of the loop over the parents. */
  lemma NextUp(nodes: Nodes, c: seq<nat>, j: nat, d: int)
    requires Tree(nodes) && IsChain(nodes, c) && 1 <= j < |c|
    ensures c[j] in nodes && nodes[c[j]].parent == if j + 1 < |c| then Some(c[j + 1]) else None
    ensures var r := Bump(nodes, c[1..j], d);
      r[c[j] := r[c[j]].(ref := r[c[j]].ref + d)] == Bump(nodes, c[1..j + 1], d)
  {
    ChainEnd(nodes, c, j);
    assert UpAt(nodes, c, j);
    assert c[1..j + 1] == c[1..j] + [c[j]] && c[j] !in c[1..j];
    BumpOne(nodes, c[1..j], c[j], d);
  }

  lemma BumpOne(nodes: Nodes, c: seq<nat>, x: nat, d: int)
    requires x in nodes && x !in c
    ensures var r := Bump(nodes, c, d); r[x := r[x].(ref := r[x].ref + d)] == Bump(nodes, c + [x], d)
  {
  }

  /** One round of the close loop: either the count stays positive and the close ends, or it goes on one level up. */
  lemma CloseRound(nodes: Nodes, left: seq<seq<nat>>, c: seq<nat>)
    requires Tree(nodes) && AllChains(nodes, left) && IsChain(nodes, c) && Counted(nodes, left, c) && Named(nodes)
    ensures c[0] in nodes
    ensures nodes[c[0]].ref - 1 > 0 ==> var r := Bump(nodes, c, -1);
      CloseFrom(nodes, c) == r && Inv(Fs(r, left)) && Named(r)
    ensures nodes[c[0]].ref - 1 <= 0 ==>
      && |c| > 1 && nodes[c[0]].parent == Some(c[1]) && IsChain(nodes, c)
      && var r := Detach(nodes, c[0], c[1]);
        && Tree(r) && AllChains(r, left) && IsChain(r, c[1..]) && Counted(r, left, c[1..]) && Named(r)
        && CloseFrom(nodes, c) == CloseFrom(r, c[1..])
  {
    assert UpAt(nodes, c, 0);
    if nodes[c[0]].ref - 1 > 0 { CloseSettles(nodes, left, c); } else { DetachSettles(nodes, left, c); }
  }

  /** A reference on the first node and then on the rest of the chain is a reference on the chain. */
  lemma TakeRef(nodes: Nodes, c: seq<nat>, d: int)
    requires Tree(nodes) && IsChain(nodes, c) && c[0] in nodes
    ensures var r := nodes[c[0] := nodes[c[0]].(ref := nodes[c[0]].ref + d)];
      Tree(r) && IsChain(r, c) && Bump(r, c[1..], d) == Bump(nodes, c, d)
  {
    var r := nodes[c[0] := nodes[c[0]].(ref := nodes[c[0]].ref + d)];
    ShapeKeeps(nodes, r, []);
    ShapeChain(nodes, r, c);
    assert forall n :: n in c <==> n == c[0] || n in c[1..];
  }
}
