/**
 Reference counts of the virtual file system (source/component/fs/vsf_fs.c) on a tree without mounts: open, close,
 create, unlink, rename and get-parent over nodes that keep their own `ref`, `parent` and child list.
 */
module VfsTree {
  import opened Basics

  const ROOT: nat := 0

  /** vk_vfs_file_t: `parent` is only set when the node is looked up. */
  datatype VNode = VNode(name: string, isDir: bool, ref: int, toUnlink: bool, parent: Option<nat>, children: seq<nat>)

  type Nodes = map<nat, VNode>

  /**
   The file system. `open` is bookkeeping: for every open handle, the node it is on and all its ancestors up to the
   root, in this order.
   */
  datatype Fs = Fs(nodes: Nodes, open: seq<seq<nat>>)

  // ---------- the count law ----------

  /** Open handles on a node or on a descendant of it. */
  function Below(open: seq<seq<nat>>, n: nat): nat {
    if open == [] then 0 else (if n in open[0] then 1 else 0) + Below(open[1..], n)
  }

  /** The reference that belongs to the node itself: the root, or a created node not yet unlinked. */
  function Own(x: VNode): nat {
    if x.toUnlink then 0 else 1
  }

  /** Link `i` of a chain: the node is in the child list of the next one, which is its parent; the last is the root. */
  ghost predicate UpAt(nodes: Nodes, c: seq<nat>, i: nat)
    requires i < |c|
  {
    && c[i] in nodes
    && if i + 1 < |c| then ChildOf(nodes, c[i], c[i + 1]) && nodes[c[i]].parent == Some(c[i + 1]) else c[i] == ROOT
  }

  ghost predicate IsChain(nodes: Nodes, c: seq<nat>) {
    c != [] && NoDup(c) && forall i :: 0 <= i < |c| ==> UpAt(nodes, c, i)
  }

  predicate ChildOf(nodes: Nodes, k: nat, d: nat) {
    d in nodes && k in nodes[d].children
  }

  predicate SameName(nodes: Nodes, j: nat, k: nat) {
    j in nodes && k in nodes && nodes[j].name == nodes[k].name
  }

  /** The shape of the tree, and what callers keep to: a directory is unlinked only after its children. */
  ghost predicate Tree(nodes: Nodes) {
    && ROOT in nodes && nodes[ROOT].isDir && nodes[ROOT].parent == None && !nodes[ROOT].toUnlink
    && (forall d :: d in nodes ==> NoDup(nodes[d].children) && (nodes[d].children != [] ==> nodes[d].isDir))
    && (forall d, k :: ChildOf(nodes, k, d) ==> k in nodes && k != ROOT && (nodes[d].toUnlink ==> nodes[k].toUnlink))
    && (forall d, e, k :: ChildOf(nodes, k, d) && ChildOf(nodes, k, e) ==> d == e)
    && forall d, j, k :: ChildOf(nodes, j, d) && ChildOf(nodes, k, d) ==> (SameName(nodes, j, k) ==> j == k)
  }

  ghost predicate AllChains(nodes: Nodes, open: seq<seq<nat>>) {
    forall i :: 0 <= i < |open| ==> IsChain(nodes, open[i])
  }

  /** Every count is the number of handles at or below the node, plus its own; `extra` still counts once more. */
  ghost predicate Counted(nodes: Nodes, open: seq<seq<nat>>, extra: seq<nat>) {
    forall n :: n in nodes ==>
      && nodes[n].ref == Below(open, n) + Own(nodes[n]) + (if n in extra then 1 else 0)
      && (nodes[n].toUnlink ==> Below(open, n) > 0 || n in extra)
  }

  ghost predicate Inv(s: Fs) {
    Tree(s.nodes) && AllChains(s.nodes, s.open) && Counted(s.nodes, s.open, [])
  }

  // ---------- counting ----------

  lemma {:induction false} BelowConcat(a: seq<seq<nat>>, b: seq<seq<nat>>, n: nat)
    ensures Below(a + b, n) == Below(a, n) + Below(b, n)
  {
    if a == [] {
      assert a + b == b;
    } else {
      assert (a + b)[1..] == a[1..] + b;
      BelowConcat(a[1..], b, n);
    }
  }

  function Without(open: seq<seq<nat>>, i: nat): seq<seq<nat>>
    requires i < |open|
  {
    open[..i] + open[i + 1..]
  }

  lemma BelowWithout(open: seq<seq<nat>>, i: nat, n: nat)
    requires i < |open|
    ensures Below(open, n) == Below(Without(open, i), n) + (if n in open[i] then 1 else 0)
  {
    assert open == open[..i] + ([open[i]] + open[i + 1..]);
    BelowConcat(open[..i], [open[i]] + open[i + 1..], n);
    BelowConcat([open[i]], open[i + 1..], n);
    BelowConcat(open[..i], open[i + 1..], n);
  }

  lemma BelowAppend(open: seq<seq<nat>>, c: seq<nat>, n: nat)
    ensures Below(open + [c], n) == Below(open, n) + (if n in c then 1 else 0)
  {
    BelowConcat(open, [c], n);
  }

  lemma {:induction false} BelowWitness(open: seq<seq<nat>>, n: nat)
    ensures Below(open, n) > 0 <==> exists i :: 0 <= i < |open| && n in open[i]
  {
    if open != [] {
      BelowWitness(open[1..], n);
      if i :| 0 <= i < |open| && n in open[i] && i > 0 { assert n in open[1..][i - 1]; }
      if i :| 0 <= i < |open[1..]| && n in open[1..][i] { assert n in open[i + 1]; }
    }
  }

  // ---------- chains ----------

  /** Only the last node of a chain is the root. */
  lemma ChainEnd(nodes: Nodes, c: seq<nat>, i: nat)
    requires Tree(nodes) && IsChain(nodes, c) && i < |c|
    ensures c[i] in nodes && (c[i] == ROOT <==> i == |c| - 1)
  {
    assert UpAt(nodes, c, i);
  }

  /** Whoever passes through a node continues the same way up: handles below a node are handles below its parents. */
  lemma {:induction false} SameWayUp(nodes: Nodes, c: seq<nat>, i: nat, d: seq<nat>, j: nat)
    requires Tree(nodes) && IsChain(nodes, c) && IsChain(nodes, d) && i < |c| && j < |d| && c[i] == d[j]
    ensures c[i..] == d[j..]
    decreases |c| - i
  {
    ChainEnd(nodes, c, i);
    ChainEnd(nodes, d, j);
    assert UpAt(nodes, c, i) && UpAt(nodes, d, j);
    if i + 1 < |c| {
      SameWayUp(nodes, c, i + 1, d, j + 1);
      assert c[i..] == [c[i]] + c[i + 1..] && d[j..] == [d[j]] + d[j + 1..];
    } else {
      assert c[i..] == [c[i]] && d[j..] == [d[j]];
    }
  }

  lemma ChainSuffix(nodes: Nodes, c: seq<nat>, i: nat)
    requires IsChain(nodes, c) && i < |c|
    ensures IsChain(nodes, c[i..])
  {
    var d := c[i..];
    forall a, b | 0 <= a < b < |d| ensures d[a] != d[b] { assert c[i + a] != c[i + b]; }
    forall j | 0 <= j < |d| ensures UpAt(nodes, d, j) { assert UpAt(nodes, c, i + j); }
  }

  /** A handle below a node is below every ancestor of it. */
  lemma BelowGrows(nodes: Nodes, open: seq<seq<nat>>, c: seq<nat>, i: nat)
    requires Tree(nodes) && AllChains(nodes, open) && IsChain(nodes, c) && i < |c| && Below(open, c[0]) > 0
    ensures Below(open, c[i]) > 0
  {
    BelowWitness(open, c[0]);
    var k :| 0 <= k < |open| && c[0] in open[k];
    var j :| 0 <= j < |open[k]| && open[k][j] == c[0];
    SameWayUp(nodes, c, 0, open[k], j);
    assert c[i] == open[k][j..][i] && open[k][j..][i] == open[k][j + i];
    assert c[i] in open[k];
    BelowWitness(open, c[i]);
  }

  /** A node that is still linked has only linked ancestors. */
  lemma {:induction false} LinkedAbove(nodes: Nodes, c: seq<nat>, i: nat)
    requires Tree(nodes) && IsChain(nodes, c) && i < |c| && c[0] in nodes && !nodes[c[0]].toUnlink
    ensures c[i] in nodes && !nodes[c[i]].toUnlink
  {
    assert UpAt(nodes, c, i);
    if i > 0 {
      LinkedAbove(nodes, c, i - 1);
      assert UpAt(nodes, c, i - 1);
    }
  }

  // ---------- changing counts only ----------

  /** All counts along a chain change by `d`: what the reference loops of the code amount to. */
  function Bump(nodes: Nodes, c: seq<nat>, d: int): (r: Nodes) {
    map n | n in nodes :: if n in c then nodes[n].(ref := nodes[n].ref + d) else nodes[n]
  }

  /** The two maps differ in counts only. */
  ghost predicate SameShape(a: Nodes, b: Nodes) {
    a.Keys == b.Keys && forall n :: n in a ==> a[n] == b[n].(ref := a[n].ref)
  }

  lemma ShapeKeeps(a: Nodes, b: Nodes, open: seq<seq<nat>>)
    requires SameShape(a, b) && Tree(a) && AllChains(a, open)
    ensures Tree(b) && AllChains(b, open)
  {
    forall d, k ensures ChildOf(b, k, d) <==> ChildOf(a, k, d) {}
    forall j, k ensures SameName(b, j, k) <==> SameName(a, j, k) {}
    forall i | 0 <= i < |open| ensures IsChain(b, open[i]) { ShapeChain(a, b, open[i]); }
  }

  lemma ShapeChain(a: Nodes, b: Nodes, c: seq<nat>)
    requires SameShape(a, b) && IsChain(a, c)
    ensures IsChain(b, c)
  {
    forall i | 0 <= i < |c| ensures UpAt(b, c, i) { assert UpAt(a, c, i); }
  }

  // ---------- open and get-parent ----------

  /** A reference on a node and on all its ancestors: vk_file_open before the walk, and vk_file_get_parent. */
  function Opened(s: Fs, c: seq<nat>): (r: Fs) {
    Fs(Bump(s.nodes, c, 1), s.open + [c])
  }

  lemma OpenedInv(s: Fs, c: seq<nat>)
    requires Inv(s) && IsChain(s.nodes, c)
    ensures Inv(Opened(s, c))
  {
    var r := Opened(s, c);
    ShapeKeeps(s.nodes, r.nodes, s.open);
    ShapeChain(s.nodes, r.nodes, c);
    forall n | n in r.nodes
      ensures r.nodes[n].ref == Below(r.open, n) + Own(r.nodes[n])
      ensures r.nodes[n].toUnlink ==> Below(r.open, n) > 0
    {
      BelowAppend(s.open, c, n);
    }
  }

  // ---------- close ----------

  /** __vk_vfs_close and vk_file_free: the node leaves its directory's list and the file system. */
  function Detach(nodes: Nodes, k: nat, d: nat): (r: Nodes) {
    map n | n in nodes && n != k ::
      if n == d then nodes[n].(children := Remove(nodes[n].children, k)) else nodes[n]
  }

  /** __vk_file_close: drop a reference; while a count reaches zero, free the node and go on with its parent. */
  function CloseFrom(nodes: Nodes, c: seq<nat>): (r: Nodes)
    decreases |c|
  {
    if c == [] || c[0] !in nodes then nodes
    else if nodes[c[0]].ref - 1 > 0 || |c| == 1 then Bump(nodes, c, -1)
    else CloseFrom(Detach(nodes, c[0], c[1]), c[1..])
  }

  function Closed(s: Fs, i: nat): (r: Fs)
    requires i < |s.open|
  {
    Fs(CloseFrom(s.nodes, s.open[i]), Without(s.open, i))
  }

  /** A close brings no node back. */
  lemma {:induction false} GoneForGood(nodes: Nodes, c: seq<nat>, x: nat)
    requires x !in nodes
    ensures x !in CloseFrom(nodes, c)
    decreases |c|
  {
    if c != [] && c[0] in nodes && !(nodes[c[0]].ref - 1 > 0 || |c| == 1) {
      GoneForGood(Detach(nodes, c[0], c[1]), c[1..], x);
    }
  }

  /** And changes nothing but counts and child lists of the nodes that stay. */
  lemma {:induction false} CloseKeepsNode(nodes: Nodes, c: seq<nat>, k: nat)
    requires k in CloseFrom(nodes, c)
    ensures k in nodes
    ensures var x := CloseFrom(nodes, c)[k]; x == nodes[k].(ref := x.ref, children := x.children)
    decreases |c|
  {
    if c != [] && c[0] in nodes && !(nodes[c[0]].ref - 1 > 0 || |c| == 1) {
      if k == c[0] || k !in nodes { GoneForGood(Detach(nodes, c[0], c[1]), c[1..], k); }
      CloseKeepsNode(Detach(nodes, c[0], c[1]), c[1..], k);
    }
  }

  /** If a node keeps a reference, so do all its ancestors: the plain decrement never takes a count to zero. */
  lemma AncestorsKept(nodes: Nodes, open: seq<seq<nat>>, c: seq<nat>, i: nat)
    requires Tree(nodes) && AllChains(nodes, open) && IsChain(nodes, c) && Counted(nodes, open, c) && i < |c|
    requires c[0] in nodes && nodes[c[0]].ref > 1
    ensures c[i] in nodes && nodes[c[i]].ref - 1 > 0 && Below(open, c[i]) + Own(nodes[c[i]]) > 0
  {
    assert UpAt(nodes, c, i);
    if Below(open, c[0]) > 0 { BelowGrows(nodes, open, c, i); } else { LinkedAbove(nodes, c, i); }
  }

  /** A child of the first node is not among its ancestors. */
  lemma ChildNotAbove(nodes: Nodes, c: seq<nat>, k: nat)
    requires Tree(nodes) && IsChain(nodes, c) && ChildOf(nodes, k, c[0])
    ensures k !in c
  {
    forall j | 0 <= j < |c| ensures c[j] != k {
      ChainEnd(nodes, c, j);
      assert UpAt(nodes, c, j);
      assert j + 1 < |c| ==> c[j + 1] != c[0];
    }
  }

  /** An unlinked node without handles has no children left. */
  lemma ChildrenGone(nodes: Nodes, open: seq<seq<nat>>, c: seq<nat>)
    requires Tree(nodes) && AllChains(nodes, open) && IsChain(nodes, c) && Counted(nodes, open, c)
    requires c[0] in nodes && nodes[c[0]].toUnlink && Below(open, c[0]) == 0
    ensures nodes[c[0]].children == []
  {
    if nodes[c[0]].children != [] {
      var k := nodes[c[0]].children[0];
      assert ChildOf(nodes, k, c[0]);
      ChildNotAbove(nodes, c, k);
      HandleBelowChild(nodes, open, k, c[0]);
    }
  }

  /** A handle at or below a child is a handle below the directory that lists it. */
  lemma HandleBelowChild(nodes: Nodes, open: seq<seq<nat>>, k: nat, d: nat)
    requires Tree(nodes) && AllChains(nodes, open) && ChildOf(nodes, k, d) && Below(open, k) > 0
    ensures Below(open, d) > 0
  {
    BelowWitness(open, k);
    var i :| 0 <= i < |open| && k in open[i];
    var j :| 0 <= j < |open[i]| && open[i][j] == k;
    ChainEnd(nodes, open[i], j);
    assert UpAt(nodes, open[i], j);
    assert open[i][j + 1] == d;
    assert d in open[i];
    BelowWitness(open, d);
  }

  lemma DetachTree(nodes: Nodes, k: nat, d: nat)
    requires Tree(nodes) && ChildOf(nodes, k, d) && k in nodes && nodes[k].children == []
    ensures Tree(Detach(nodes, k, d))
    ensures forall e, j :: ChildOf(Detach(nodes, k, d), j, e) <==> ChildOf(nodes, j, e) && j != k
  {
    var r := Detach(nodes, k, d);
    RemoveMembers(nodes[d].children, k);
    forall e, j ensures ChildOf(r, j, e) <==> ChildOf(nodes, j, e) && j != k {
      assert ChildOf(nodes, k, e) ==> e == d;
    }
    assert forall i, j :: SameName(r, i, j) ==> SameName(nodes, i, j);
  }

  lemma DetachChain(nodes: Nodes, k: nat, d: nat, c: seq<nat>)
    requires Tree(nodes) && ChildOf(nodes, k, d) && k in nodes && nodes[k].children == []
    requires IsChain(nodes, c) && k !in c
    ensures IsChain(Detach(nodes, k, d), c)
  {
    DetachTree(nodes, k, d);
    var r := Detach(nodes, k, d);
    forall i | 0 <= i < |c| ensures UpAt(r, c, i) {
      assert UpAt(nodes, c, i);
      assert i + 1 < |c| ==> UpAt(nodes, c, i + 1);
    }
  }

  /** Freeing an unlinked node without handles leaves the same situation one level up. */
  lemma DetachSettles(nodes: Nodes, open: seq<seq<nat>>, c: seq<nat>)
    requires Tree(nodes) && AllChains(nodes, open) && IsChain(nodes, c) && Counted(nodes, open, c)
    requires c[0] in nodes && nodes[c[0]].ref <= 1
    ensures |c| > 1 && nodes[c[0]].toUnlink && Below(open, c[0]) == 0
    ensures var r := Detach(nodes, c[0], c[1]);
      Tree(r) && AllChains(r, open) && IsChain(r, c[1..]) && Counted(r, open, c[1..])
  {
    ChainEnd(nodes, c, 0);
    ChildrenGone(nodes, open, c);
    assert UpAt(nodes, c, 0);
    DetachTree(nodes, c[0], c[1]);
    ChainSuffix(nodes, c, 1);
    DetachChain(nodes, c[0], c[1], c[1..]);
    BelowWitness(open, c[0]);
    var r := Detach(nodes, c[0], c[1]);
    forall i | 0 <= i < |open| ensures IsChain(r, open[i]) { DetachChain(nodes, c[0], c[1], open[i]); }
    assert forall n :: n in c <==> n == c[0] || n in c[1..];
  }

  /**
   Closing settles every count, and frees exactly the nodes of the chain that are unlinked and have no handle left at
   or below them; nothing else disappears.
   */
  lemma {:induction false} CloseSettles(nodes: Nodes, open: seq<seq<nat>>, c: seq<nat>)
    requires Tree(nodes) && AllChains(nodes, open) && IsChain(nodes, c) && Counted(nodes, open, c)
    ensures Inv(Fs(CloseFrom(nodes, c), open))
    ensures forall n :: n in CloseFrom(nodes, c) <==>
      n in nodes && !(n in c && nodes[n].toUnlink && Below(open, n) == 0)
    decreases |c|
  {
    assert UpAt(nodes, c, 0);
    if nodes[c[0]].ref - 1 > 0 || |c| == 1 {
      PlainClose(nodes, open, c);
    } else {
      DetachSettles(nodes, open, c);
      CloseSettles(Detach(nodes, c[0], c[1]), open, c[1..]);
      assert forall n :: n in c <==> n == c[0] || n in c[1..];
    }
  }

  lemma PlainClose(nodes: Nodes, open: seq<seq<nat>>, c: seq<nat>)
    requires Tree(nodes) && AllChains(nodes, open) && IsChain(nodes, c) && Counted(nodes, open, c)
    requires c[0] in nodes && (nodes[c[0]].ref > 1 || |c| == 1)
    ensures Inv(Fs(Bump(nodes, c, -1), open))
    ensures forall n :: n in c ==> n in nodes && !(nodes[n].toUnlink && Below(open, n) == 0)
  {
    ChainEnd(nodes, c, 0);
    ShapeKeeps(nodes, Bump(nodes, c, -1), open);
    forall n | n in c ensures n in nodes && Below(open, n) + Own(nodes[n]) > 0 {
      var i :| 0 <= i < |c| && c[i] == n;
      ChainEnd(nodes, c, i);
      if nodes[c[0]].ref > 1 { AncestorsKept(nodes, open, c, i); }
    }
  }

  /** The situation at the start of a close: the chain is no longer open but still counted. */
  lemma Reopened(s: Fs, i: nat)
    requires Inv(s) && i < |s.open|
    ensures AllChains(s.nodes, Without(s.open, i)) && Counted(s.nodes, Without(s.open, i), s.open[i])
  {
    forall n | n in s.nodes
      ensures s.nodes[n].ref == Below(Without(s.open, i), n) + Own(s.nodes[n]) + (if n in s.open[i] then 1 else 0)
      ensures s.nodes[n].toUnlink ==> Below(Without(s.open, i), n) > 0 || n in s.open[i]
    {
      BelowWithout(s.open, i, n);
    }
  }

  lemma ClosedInv(s: Fs, i: nat)
    requires Inv(s) && i < |s.open|
    ensures Inv(Closed(s, i))
    ensures forall n :: n in s.nodes && n !in Closed(s, i).nodes <==>
      n in s.nodes && n in s.open[i] && s.nodes[n].toUnlink && Below(Without(s.open, i), n) == 0
  {
    Reopened(s, i);
    CloseSettles(s.nodes, Without(s.open, i), s.open[i]);
  }

  // ---------- the walk ----------

  /** __vk_file_lookup has found `k` for handle `h`, and sets its parent. */
  function Looked(s: Fs, h: nat, k: nat): (r: Fs)
    requires h < |s.open| && s.open[h] != [] && k in s.nodes
  {
    s.(nodes := s.nodes[k := s.nodes[k].(parent := Some(s.open[h][0]))])
  }

  /** __vk_file_open, a later event: the reference is taken, the handle moves on. A node that is gone has no count. */
  function Entered(s: Fs, h: nat, k: nat): (r: Fs)
    requires h < |s.open|
  {
    Fs(if k in s.nodes then s.nodes[k := s.nodes[k].(ref := s.nodes[k].ref + 1)] else s.nodes,
       s.open[h := [k] + s.open[h]])
  }

  /** Both: the handle moves from a directory to one of its children. */
  function Descended(s: Fs, h: nat, k: nat): (r: Fs)
    requires h < |s.open| && s.open[h] != [] && k in s.nodes
  {
    Entered(Looked(s, h, k), h, k)
  }

  lemma BelowUpdate(open: seq<seq<nat>>, h: nat, c: seq<nat>, n: nat)
    requires h < |open|
    ensures Below(open[h := c], n) + (if n in open[h] then 1 else 0) == Below(open, n) + (if n in c then 1 else 0)
  {
    BelowWithout(open, h, n);
    BelowWithout(open[h := c], h, n);
    assert Without(open[h := c], h) == Without(open, h);
  }

  /** Setting the parent that the child list already implies changes no chain. */
  lemma LookupKeeps(nodes: Nodes, k: nat, d: nat, x: VNode, c: seq<nat>)
    requires Tree(nodes) && ChildOf(nodes, k, d) && IsChain(nodes, c)
    requires x == nodes[k].(ref := x.ref, parent := Some(d))
    ensures IsChain(nodes[k := x], c)
  {
    var r := nodes[k := x];
    forall i | 0 <= i < |c| ensures UpAt(r, c, i) {
      ChainEnd(nodes, c, i);
      assert UpAt(nodes, c, i);
    }
  }

  lemma LookedInv(s: Fs, h: nat, k: nat)
    requires Inv(s) && h < |s.open| && ChildOf(s.nodes, k, s.open[h][0])
    ensures Inv(Looked(s, h, k))
  {
    var d, r := s.open[h][0], Looked(s, h, k);
    SameLinks(s.nodes, r.nodes);
    forall i | 0 <= i < |s.open| ensures IsChain(r.nodes, s.open[i]) {
      LookupKeeps(s.nodes, k, d, r.nodes[k], s.open[i]);
    }
  }

  lemma EnteredInv(s: Fs, h: nat, k: nat)
    requires Inv(s) && h < |s.open| && ChildOf(s.nodes, k, s.open[h][0])
    requires s.nodes[k].parent == Some(s.open[h][0])
    ensures Inv(Entered(s, h, k))
  {
    var c, r := s.open[h], Entered(s, h, k);
    assert IsChain(s.nodes, c);
    ChildNotAbove(s.nodes, c, k);
    SameLinks(s.nodes, r.nodes);
    forall i | 0 <= i < |s.open| ensures IsChain(r.nodes, s.open[i]) { ShapeChain(s.nodes, r.nodes, s.open[i]); }
    LongerChain(r.nodes, k, c);
    forall m | m in r.nodes
      ensures r.nodes[m].ref == Below(r.open, m) + Own(r.nodes[m])
      ensures r.nodes[m].toUnlink ==> Below(r.open, m) > 0
    {
      BelowUpdate(s.open, h, [k] + c, m);
    }
  }

  lemma LongerChain(nodes: Nodes, k: nat, c: seq<nat>)
    requires IsChain(nodes, c) && k in nodes && k !in c && ChildOf(nodes, k, c[0]) && nodes[k].parent == Some(c[0])
    ensures IsChain(nodes, [k] + c)
  {
    var d := [k] + c;
    forall i | 0 <= i < |d| ensures UpAt(nodes, d, i) {
      if i > 0 { assert UpAt(nodes, c, i - 1); }
    }
  }

  lemma DescendedInv(s: Fs, h: nat, k: nat)
    requires Inv(s) && h < |s.open| && ChildOf(s.nodes, k, s.open[h][0])
    ensures Inv(Descended(s, h, k))
  {
    LookedInv(s, h, k);
    EnteredInv(Looked(s, h, k), h, k);
  }

  /** The two maps agree on names, kinds, marks and child lists. */
  ghost predicate SameTree(a: Nodes, b: Nodes) {
    a.Keys == b.Keys && forall n :: n in a ==> a[n] == b[n].(ref := a[n].ref, parent := a[n].parent)
  }

  lemma SameLinks(a: Nodes, b: Nodes)
    requires Tree(a) && SameTree(a, b) && ROOT in b && b[ROOT].parent == None
    ensures Tree(b)
  {
    forall d, k ensures ChildOf(b, k, d) <==> ChildOf(a, k, d) {}
    forall j, k ensures SameName(b, j, k) <==> SameName(a, j, k) {}
  }

  // ---------- create, unlink, rename ----------

  /** __vk_vfs_create, the name being free in the directory. */
  function Created(s: Fs, d: nat, id: nat, name: string, isDir: bool): (r: Fs)
    requires d in s.nodes
  {
    s.(nodes := s.nodes[d := s.nodes[d].(children := s.nodes[d].children + [id])]
                       [id := VNode(name, isDir, 1, false, None, [])])
  }

  /** No child of the directory has the name. */
  ghost predicate NameFree(nodes: Nodes, d: nat, name: string) {
    forall k :: ChildOf(nodes, k, d) && k in nodes ==> nodes[k].name != name
  }

  lemma CreatedInv(s: Fs, d: nat, id: nat, name: string, isDir: bool)
    requires Inv(s) && d in s.nodes && s.nodes[d].isDir && !s.nodes[d].toUnlink && id !in s.nodes
    requires NameFree(s.nodes, d, name)
    ensures Inv(Created(s, d, id, name, isDir))
  {
    var r := Created(s, d, id, name, isDir);
    CreatedTree(s.nodes, r.nodes, d, id);
    forall i | 0 <= i < |s.open| ensures IsChain(r.nodes, s.open[i]) && id !in s.open[i] {
      var c := s.open[i];
      forall j | 0 <= j < |c| ensures UpAt(r.nodes, c, j) && c[j] != id { assert UpAt(s.nodes, c, j); }
    }
    BelowWitness(s.open, id);
  }

  lemma CreatedTree(a: Nodes, b: Nodes, d: nat, id: nat)
    requires Tree(a) && d in a && a[d].isDir && !a[d].toUnlink && id !in a
    requires id in b && b == a[d := a[d].(children := a[d].children + [id])][id := b[id]]
    requires NameFree(a, d, b[id].name) && b[id].children == [] && !b[id].toUnlink
    ensures Tree(b)
    ensures forall e, k :: ChildOf(b, k, e) <==> ChildOf(a, k, e) || (e == d && k == id)
  {
    CreatedLists(a, b, d, id);
    forall f, j, k | ChildOf(b, j, f) && ChildOf(b, k, f) && SameName(b, j, k) ensures j == k {
      if j != id && k != id { assert SameName(a, j, k); }
    }
  }

  lemma CreatedLists(a: Nodes, b: Nodes, d: nat, id: nat)
    requires Tree(a) && d in a && a[d].isDir && id !in a
    requires id in b && b == a[d := a[d].(children := a[d].children + [id])][id := b[id]] && b[id].children == []
    ensures forall e, k :: ChildOf(b, k, e) <==> ChildOf(a, k, e) || (e == d && k == id)
    ensures forall e :: e in b ==> NoDup(b[e].children) && (b[e].children != [] ==> b[e].isDir)
  {
    assert id !in a[d].children by { assert id in a[d].children ==> ChildOf(a, id, d); }
    AppendNoDup(a[d].children, id);
    forall e, k ensures ChildOf(b, k, e) <==> ChildOf(a, k, e) || (e == d && k == id) {}
  }

  /** __vk_vfs_unlink of child `k` of directory `d`. */
  function Unlinked(s: Fs, d: nat, k: nat): (r: Fs)
    requires d in s.nodes && k in s.nodes
  {
    var x := s.nodes[k];
    if x.ref > 1 then
      if x.toUnlink then s else s.(nodes := s.nodes[k := x.(ref := x.ref - 1, toUnlink := true)])
    else s.(nodes := Detach(s.nodes, k, d))
  }

  /** Callers keep to this: the node was not unlinked before, and its children were. */
  ghost predicate MayUnlink(nodes: Nodes, k: nat)
    requires k in nodes
  {
    !nodes[k].toUnlink && forall j :: ChildOf(nodes, j, k) && j in nodes ==> nodes[j].toUnlink
  }

  lemma UnlinkedInv(s: Fs, d: nat, k: nat)
    requires Inv(s) && ChildOf(s.nodes, k, d) && k in s.nodes && MayUnlink(s.nodes, k)
    ensures Inv(Unlinked(s, d, k))
    ensures k !in Unlinked(s, d, k).nodes <==> Below(s.open, k) == 0
  {
    var r := Unlinked(s, d, k);
    if s.nodes[k].ref > 1 {
      MarkedInv(s, r, k);
    } else {
      if s.nodes[k].children != [] {
        var j := s.nodes[k].children[0];
        assert ChildOf(s.nodes, j, k);
        HandleBelowChild(s.nodes, s.open, j, k);
      }
      DetachTree(s.nodes, k, d);
      BelowWitness(s.open, k);
      forall i | 0 <= i < |s.open| ensures IsChain(r.nodes, s.open[i]) { DetachChain(s.nodes, k, d, s.open[i]); }
    }
  }

  lemma MarkedInv(s: Fs, r: Fs, k: nat)
    requires Inv(s) && k in s.nodes && k != ROOT && MayUnlink(s.nodes, k) && s.nodes[k].ref > 1
    requires r == s.(nodes := s.nodes[k := s.nodes[k].(ref := s.nodes[k].ref - 1, toUnlink := true)])
    ensures Inv(r)
  {
    forall d, j ensures ChildOf(r.nodes, j, d) <==> ChildOf(s.nodes, j, d) {}
    forall i, j ensures SameName(r.nodes, i, j) <==> SameName(s.nodes, i, j) {}
    forall i | 0 <= i < |s.open| ensures IsChain(r.nodes, s.open[i]) {
      var c := s.open[i];
      forall j | 0 <= j < |c| ensures UpAt(r.nodes, c, j) { assert UpAt(s.nodes, c, j); }
    }
  }

  /** __vk_vfs_rename of child `k` of `d` to `name` in `e`: the parent field is not updated. */
  function Renamed(s: Fs, d: nat, k: nat, e: nat, name: string): (r: Fs)
    requires d in s.nodes && e in s.nodes && k in s.nodes
  {
    var named := s.nodes[k := s.nodes[k].(name := name)];
    if d == e then s.(nodes := named)
    else
      var out := named[d := named[d].(children := Remove(named[d].children, k))];
      s.(nodes := out[e := out[e].(children := out[e].children + [k])])
  }

  lemma RenamedInv(s: Fs, d: nat, k: nat, e: nat, name: string)
    requires Inv(s) && ChildOf(s.nodes, k, d) && k in s.nodes && e in s.nodes && s.nodes[e].isDir
    requires NameFree(s.nodes, e, name)
    requires d != e ==> Below(s.open, k) == 0 && !s.nodes[e].toUnlink
    ensures Inv(Renamed(s, d, k, e, name))
  {
    var r := Renamed(s, d, k, e, name);
    RenamedTree(s.nodes, r.nodes, d, k, e, name);
    RenamedLists(s.nodes, r.nodes, d, k, e, name);
    BelowWitness(s.open, k);
    forall i | 0 <= i < |s.open| ensures IsChain(r.nodes, s.open[i]) {
      RenamedChain(s.nodes, r.nodes, d, k, e, name, s.open[i]);
    }
  }

  lemma RenamedChain(a: Nodes, b: Nodes, d: nat, k: nat, e: nat, name: string, c: seq<nat>)
    requires Tree(a) && ChildOf(a, k, d) && k in a && e in a && a[e].isDir
    requires b == Renamed(Fs(a, []), d, k, e, name).nodes
    requires IsChain(a, c) && (d != e ==> k !in c)
    ensures IsChain(b, c)
  {
    RenamedLists(a, b, d, k, e, name);
    forall j | 0 <= j < |c| ensures UpAt(b, c, j) { assert UpAt(a, c, j); }
  }

  /** What a rename does to the child lists, and that it does nothing else but set the name. */
  lemma RenamedLists(a: Nodes, b: Nodes, d: nat, k: nat, e: nat, name: string)
    requires Tree(a) && ChildOf(a, k, d) && k in a && e in a && a[e].isDir
    requires b == Renamed(Fs(a, []), d, k, e, name).nodes
    ensures b.Keys == a.Keys
    ensures forall n :: n in a ==>
      b[n] == a[n].(name := if n == k then name else a[n].name, children := b[n].children)
    ensures forall f :: f in b ==> NoDup(b[f].children) && (b[f].children != [] ==> b[f].isDir)
    ensures forall f, j :: ChildOf(b, j, f) <==> if j == k then f == e else ChildOf(a, j, f)
  {
    RenamedFields(a, b, d, k, e, name);
    RemoveMembers(a[d].children, k);
    if d != e {
      assert k !in a[e].children by { assert k in a[e].children ==> ChildOf(a, k, e); }
      AppendNoDup(a[e].children, k);
    }
    forall f, j ensures ChildOf(b, j, f) <==> if j == k then f == e else ChildOf(a, j, f) {
      assert ChildOf(a, k, f) ==> f == d;
    }
  }

  lemma RenamedFields(a: Nodes, b: Nodes, d: nat, k: nat, e: nat, name: string)
    requires d in a && k in a && e in a
    requires b == Renamed(Fs(a, []), d, k, e, name).nodes
    ensures b.Keys == a.Keys
    ensures forall n :: n in a ==>
      b[n] == a[n].(name := if n == k then name else a[n].name, children := RenamedKids(a, d, k, e, n))
  {
  }

  /** The child list of `n` after the rename. */
  function RenamedKids(a: Nodes, d: nat, k: nat, e: nat, n: nat): seq<nat>
    requires n in a
  {
    if d == e then a[n].children
    else if n == e then a[n].children + [k]
    else if n == d then Remove(a[n].children, k)
    else a[n].children
  }

  lemma RenamedTree(a: Nodes, b: Nodes, d: nat, k: nat, e: nat, name: string)
    requires Tree(a) && ChildOf(a, k, d) && k in a && e in a && a[e].isDir && NameFree(a, e, name)
    requires d != e ==> !a[e].toUnlink
    requires b == Renamed(Fs(a, []), d, k, e, name).nodes
    ensures Tree(b)
    ensures forall f, j :: ChildOf(b, j, f) <==> if j == k then f == e else ChildOf(a, j, f)
  {
    RenamedLists(a, b, d, k, e, name);
    forall f, i, j | ChildOf(b, i, f) && ChildOf(b, j, f) && SameName(b, i, j) ensures i == j {
      if i != k && j != k {
        assert SameName(a, i, j) && ChildOf(a, i, f) && ChildOf(a, j, f);
      }
    }
  }

  // ---------- no node is lost ----------

  /** A way up through the child lists to the root. */
  ghost predicate IsPath(nodes: Nodes, p: seq<nat>) {
    p != [] && p[|p| - 1] == ROOT && forall i :: 0 <= i < |p| - 1 ==> StepAt(nodes, p, i)
  }

  ghost predicate StepAt(nodes: Nodes, p: seq<nat>, i: nat)
    requires i + 1 < |p|
  {
    ChildOf(nodes, p[i], p[i + 1])
  }

  /** The node can be reached from the root, so that it can be found, unlinked and freed. */
  ghost predicate Rooted(nodes: Nodes, k: nat) {
    exists p :: IsPath(nodes, p) && p[0] == k
  }

  ghost predicate AllRooted(nodes: Nodes) {
    forall k {:trigger Rooted(nodes, k)} :: k in nodes ==> Rooted(nodes, k)
  }

  /** The way up from a node does not lead through `k`: the node is neither `k` nor below it. */
  ghost predicate Avoids(nodes: Nodes, n: nat, k: nat) {
    exists p :: IsPath(nodes, p) && p[0] == n && k !in p
  }

  lemma RootedSame(a: Nodes, b: Nodes)
    requires AllRooted(a) && b.Keys <= a.Keys && forall k, d :: ChildOf(a, k, d) ==> ChildOf(b, k, d)
    ensures AllRooted(b)
  {
    forall k | k in b ensures Rooted(b, k) {
      assert Rooted(a, k);
      var p :| IsPath(a, p) && p[0] == k;
      forall i | 0 <= i < |p| - 1 ensures StepAt(b, p, i) { assert StepAt(a, p, i); }
      assert IsPath(b, p);
    }
  }

  lemma RootedDetach(nodes: Nodes, k: nat, d: nat)
    requires Tree(nodes) && AllRooted(nodes) && ChildOf(nodes, k, d) && k in nodes && nodes[k].children == []
    ensures AllRooted(Detach(nodes, k, d))
  {
    var r := Detach(nodes, k, d);
    DetachTree(nodes, k, d);
    forall n | n in r ensures Rooted(r, n) {
      assert Rooted(nodes, n);
      var p :| IsPath(nodes, p) && p[0] == n;
      forall i | 0 <= i < |p| - 1 ensures StepAt(r, p, i) {
        assert StepAt(nodes, p, i);
        assert i > 0 ==> StepAt(nodes, p, i - 1);
      }
      assert IsPath(r, p);
    }
  }

  lemma RootedCreate(a: Nodes, b: Nodes, d: nat, id: nat)
    requires AllRooted(a) && d in a && b.Keys == a.Keys + {id}
    requires forall e, k :: ChildOf(b, k, e) <==> ChildOf(a, k, e) || (e == d && k == id)
    ensures AllRooted(b)
  {
    forall n | n in b ensures Rooted(b, n) {
      assert Rooted(a, if n in a then n else d);
      var p :| IsPath(a, p) && p[0] == if n in a then n else d;
      forall i | 0 <= i < |p| - 1 ensures StepAt(b, p, i) { assert StepAt(a, p, i); }
      assert IsPath(b, p);
      if n !in a {
        var q := [n] + p;
        forall i | 0 <= i < |q| - 1 ensures StepAt(b, q, i) { if i > 0 { assert StepAt(b, p, i - 1); } }
        assert IsPath(b, q);
      }
    }
  }

  /** A path that meets `k` can be led on by any path from the new directory of `k`. */
  lemma {:induction false} Reroute(a: Nodes, b: Nodes, k: nat, e: nat, p: seq<nat>, up: seq<nat>)
    requires IsPath(a, p) && IsPath(b, up) && up[0] == e && ChildOf(b, k, e)
    requires forall j, f :: j != k && ChildOf(a, j, f) ==> ChildOf(b, j, f)
    ensures Rooted(b, p[0])
    decreases |p|
  {
    if p[0] == k {
      var q := [k] + up;
      forall i | 0 <= i < |q| - 1 ensures StepAt(b, q, i) { if i > 0 { assert StepAt(b, up, i - 1); } }
      assert IsPath(b, q);
    } else if |p| == 1 {
      assert IsPath(b, p);
    } else {
      assert StepAt(a, p, 0);
      var rest := p[1..];
      forall i | 0 <= i < |rest| - 1 ensures StepAt(a, rest, i) { assert StepAt(a, p, i + 1); }
      Reroute(a, b, k, e, rest, up);
      var r :| IsPath(b, r) && r[0] == rest[0];
      var q := [p[0]] + r;
      forall i | 0 <= i < |q| - 1 ensures StepAt(b, q, i) { if i > 0 { assert StepAt(b, r, i - 1); } }
      assert IsPath(b, q);
    }
  }

  /** Moving a node keeps every node reachable when the new directory is not below it. */
  lemma RootedMove(a: Nodes, b: Nodes, k: nat, e: nat)
    requires AllRooted(a) && b.Keys == a.Keys && Avoids(a, e, k)
    requires forall f, j :: ChildOf(b, j, f) <==> if j == k then f == e else ChildOf(a, j, f)
    ensures AllRooted(b)
  {
    var up :| IsPath(a, up) && up[0] == e && k !in up;
    forall i | 0 <= i < |up| - 1 ensures StepAt(b, up, i) { assert StepAt(a, up, i) && up[i] in up; }
    assert IsPath(b, up);
    forall n | n in b ensures Rooted(b, n) {
      assert Rooted(a, n);
      var p :| IsPath(a, p) && p[0] == n;
      Reroute(a, b, k, e, p, up);
    }
  }

  /** And only then. */
  lemma {:induction false} MovedAvoids(a: Nodes, b: Nodes, k: nat, e: nat, p: seq<nat>)
    requires IsPath(b, p) && k != ROOT
    requires forall f, j :: ChildOf(b, j, f) <==> if j == k then f == e else ChildOf(a, j, f)
    ensures k in p ==> Avoids(a, e, k)
    ensures k !in p ==> IsPath(a, p)
    decreases |p|
  {
    if |p| > 1 {
      assert StepAt(b, p, 0);
      var rest := p[1..];
      forall i | 0 <= i < |rest| - 1 ensures StepAt(b, rest, i) { assert StepAt(b, p, i + 1); }
      MovedAvoids(a, b, k, e, rest);
      assert p == [p[0]] + rest;
      if k !in rest {
        if p[0] == k { assert rest[0] == e; } else {
          forall i | 0 <= i < |p| - 1 ensures StepAt(a, p, i) { if i > 0 { assert StepAt(a, rest, i - 1); } }
        }
      }
    } else {
      assert p == [ROOT];
    }
  }

  /** An open directory is not below a node without handles, and the root is below nothing. */
  lemma OpenAvoids(nodes: Nodes, open: seq<seq<nat>>, e: nat, k: nat)
    requires Tree(nodes) && AllChains(nodes, open) && Below(open, k) == 0 && k != ROOT
    requires e == ROOT || Below(open, e) > 0
    ensures Avoids(nodes, e, k)
  {
    if e == ROOT {
      assert IsPath(nodes, [ROOT]);
    } else {
      BelowWitness(open, e);
      var i :| 0 <= i < |open| && e in open[i];
      var j :| 0 <= j < |open[i]| && open[i][j] == e;
      var p := open[i][j..];
      ChainSuffix(nodes, open[i], j);
      forall x | 0 <= x < |p| - 1 ensures StepAt(nodes, p, x) { assert UpAt(nodes, p, x); }
      assert UpAt(nodes, p, |p| - 1);
      assert IsPath(nodes, p);
      BelowWitness(open, k);
      assert k !in open[i];
    }
  }

  /** No reachable node lists itself. */
  lemma NotOwnDir(nodes: Nodes, k: nat)
    requires Tree(nodes) && Rooted(nodes, k) && k != ROOT
    ensures !ChildOf(nodes, k, k)
  {
    if ChildOf(nodes, k, k) {
      var p :| IsPath(nodes, p) && p[0] == k;
      OnlyItself(nodes, k, p, |p| - 1);
      assert false;
    }
  }

  lemma {:induction false} OnlyItself(nodes: Nodes, k: nat, p: seq<nat>, i: nat)
    requires Tree(nodes) && ChildOf(nodes, k, k) && IsPath(nodes, p) && p[0] == k && i < |p|
    ensures p[i] == k
  {
    if i > 0 {
      OnlyItself(nodes, k, p, i - 1);
      assert StepAt(nodes, p, i - 1);
    }
  }

  lemma {:induction false} CloseRooted(nodes: Nodes, open: seq<seq<nat>>, c: seq<nat>)
    requires Tree(nodes) && AllChains(nodes, open) && IsChain(nodes, c) && Counted(nodes, open, c)
    requires AllRooted(nodes)
    ensures AllRooted(CloseFrom(nodes, c))
    decreases |c|
  {
    assert UpAt(nodes, c, 0);
    if nodes[c[0]].ref - 1 > 0 || |c| == 1 {
      RootedSame(nodes, Bump(nodes, c, -1));
    } else {
      DetachSettles(nodes, open, c);
      ChildrenGone(nodes, open, c);
      RootedDetach(nodes, c[0], c[1]);
      CloseRooted(Detach(nodes, c[0], c[1]), open, c[1..]);
    }
  }
}
