/**
 vsf_evtq_clean_evt of source/kernel/vsf_evtq_list.c at the level of its links: a singly linked queue with head and
 tail pointers, walked and spliced while other contexts keep appending to it.
 */
module EventListClean {
  import opened Basics

  /** A queued node: where it is in memory, and the event it carries. */
  datatype Item = Item(id: nat, evt: int)

  predicate Matches(x: Item, evt: int) {
    evt == VSF_EVT_NONE || x.evt == evt
  }

  /** The items that stay when `evt` is cleaned. */
  function Keep(s: seq<Item>, evt: int): seq<Item> {
    if s == [] then [] else Keep(s[..|s| - 1], evt) + (if Matches(s[|s| - 1], evt) then [] else [s[|s| - 1]])
  }

  /** The events of a list. */
  function Evts(s: seq<Item>): (r: seq<int>)
    ensures |r| == |s| && forall i :: 0 <= i < |s| ==> r[i] == s[i].evt
  {
    seq(|s|, i requires 0 <= i < |s| => s[i].evt)
  }

  /** Of the events posted one after the other, those that still get one of the `free` nodes. */
  function Fitting(events: seq<int>, free: nat): (r: seq<int>)
    ensures |r| <= free && r <= events && (|r| < |events| ==> |r| == free)
  {
    if |events| <= free then events else events[..free]
  }

  function Batch(arrivals: seq<seq<int>>, k: nat): seq<int> {
    if k < |arrivals| then arrivals[k] else []
  }

  /**
   The events accepted while a list is cleaned, from pass `k` on: a batch arrives in each pass and takes what nodes are
   free; the pass then gives the node of a matching item back.
   */
  function Accepted(rest: seq<Item>, e: int, arrivals: seq<seq<int>>, k: nat, free: nat): seq<int>
    decreases |rest|
  {
    if rest == [] then []
    else
      var batch := Fitting(Batch(arrivals, k), free);
      batch + Accepted(rest[1..], e, arrivals, k + 1, free - |batch| + Back(rest[0], e))
  }

  function Back(x: Item, e: int): nat {
    if Matches(x, e) then 1 else 0
  }

  /** The nodes of the first `n` items, and of all. */
  function IdsTo(s: seq<Item>, n: nat): set<nat>
    requires n <= |s|
  {
    if n == 0 then {} else IdsTo(s, n - 1) + {s[n - 1].id}
  }

  function Ids(s: seq<Item>): set<nat> {
    IdsTo(s, |s|)
  }

  /** Where a node can be: in the pool or in the list. */
  function AllNodes(pool: set<nat>, items: seq<Item>): set<nat> {
    pool + Ids(items)
  }

  ghost predicate Distinct(s: seq<Item>) {
    forall i, j :: 0 <= i < j < |s| ==> s[i].id != s[j].id
  }

  /** In memory, item `i` carries its event and links to the next one, or to nothing if it is the last. */
  ghost predicate LinkAt(next: map<nat, Option<nat>>, evt: map<nat, int>, s: seq<Item>, i: nat)
    requires i < |s|
  {
    && s[i].id in next && s[i].id in evt && evt[s[i].id] == s[i].evt
    && next[s[i].id] == if i + 1 < |s| then Some(s[i + 1].id) else None
  }

  ghost predicate Linked(next: map<nat, Option<nat>>, evt: map<nat, int>, s: seq<Item>) {
    forall i :: 0 <= i < |s| ==> LinkAt(next, evt, s, i)
  }

  function Splice(s: seq<Item>, i: nat): (r: seq<Item>)
    requires i < |s|
  {
    s[..i] + s[i + 1..]
  }

  /** The links after vsf_slist_remove_after, or after moving the head. */
  function Relinked(next: map<nat, Option<nat>>, s: seq<Item>, i: nat): map<nat, Option<nat>>
    requires i < |s| && s[i].id in next
  {
    if i == 0 then next else next[s[i - 1].id := next[s[i].id]][s[i].id := None]
  }

  lemma SpliceLinked(next: map<nat, Option<nat>>, evt: map<nat, int>, s: seq<Item>, i: nat)
    requires Distinct(s) && Linked(next, evt, s) && i < |s|
    ensures s[i].id in next && Distinct(Splice(s, i)) && Linked(Relinked(next, s, i), evt, Splice(s, i))
  {
    assert LinkAt(next, evt, s, i);
    var r, next' := Splice(s, i), Relinked(next, s, i);
    forall j | 0 <= j < |r| ensures LinkAt(next', evt, r, j) {
      var k := if j < i then j else j + 1;
      assert r[j] == s[k] && LinkAt(next, evt, s, k) && s[k].id != s[i].id;
      assert i > 0 && k != i - 1 ==> s[k].id != s[i - 1].id;
    }
  }

  lemma AppendLinked(next: map<nat, Option<nat>>, evt: map<nat, int>, s: seq<Item>, x: Item)
    requires Distinct(s) && Linked(next, evt, s) && forall i :: 0 <= i < |s| ==> s[i].id != x.id
    ensures var n := next[x.id := None];
      var n' := if s == [] then n else n[s[|s| - 1].id := Some(x.id)];
      Distinct(s + [x]) && Linked(n', evt[x.id := x.evt], s + [x])
  {
    var n := next[x.id := None];
    var n' := if s == [] then n else n[s[|s| - 1].id := Some(x.id)];
    var evt', r := evt[x.id := x.evt], s + [x];
    forall i | 0 <= i < |r| ensures LinkAt(n', evt', r, i) {
      if i < |s| {
        assert LinkAt(next, evt, s, i);
        assert i < |s| - 1 ==> s[i].id != s[|s| - 1].id;
      }
    }
  }

  class EventList {
    var head: Option<nat>
    var tail: Option<nat>
    /** The nodes in memory: link and payload. */
    var next: map<nat, Option<nat>>
    var evt: map<nat, int>
    /** Free nodes. */
    var pool: set<nat>
    /** The queue the links stand for. */
    ghost var items: seq<Item>

    ghost predicate Valid()
      reads this
    {
      && Distinct(items) && Linked(next, evt, items)
      && head == (if items == [] then None else Some(items[0].id))
      && tail == (if items == [] then None else Some(items[|items| - 1].id))
      && forall i :: 0 <= i < |items| ==> items[i].id !in pool
    }

    constructor (nodes: set<nat>)
      ensures Valid() && items == [] && pool == nodes
    {
      head, tail, next, evt, pool, items := None, None, map[], map[], nodes, [];
    }

    /** __vsf_evtq_post: a node from the pool, filled and appended; nothing when the pool is empty. */
    method Append(e: int) returns (ghost node: Option<nat>)
      requires Valid()
      modifies this
      ensures Valid() && (node == None <==> old(pool) == {})
      ensures node == None ==> items == old(items) && pool == old(pool)
      ensures node.Some? ==> node.value in old(pool)
      ensures node.Some? ==> items == old(items) + [Item(node.value, e)] && pool == old(pool) - {node.value}
    {
      if pool == {} {
        return None;
      }
      var n :| n in pool;
      AppendLinked(next, evt, items, Item(n, e));
      pool := pool - {n};
      next, evt := next[n := None], evt[n := e];
      var last := tail;
      tail := Some(n);
      if last.Some? {
        next := next[last.value := Some(n)];
      } else {
        head := Some(n);
      }
      items := items + [Item(n, e)];
      node := Some(n);
    }

    /** Posts from other contexts, between two protected regions. */
    method Arrive(events: seq<int>)
      requires Valid()
      modifies this
      ensures Valid() && Arrived(old(items), old(pool), items, pool, events)
    {
      assert Fitting([], |pool|) == [];
      for i := 0 to |events|
        invariant Valid() && Arrived(old(items), old(pool), items, pool, events[..i])
      {
        ghost var items', pool' := items, pool;
        ghost var node := Append(events[i]);
        ArrivedOne(old(items), old(pool), items', pool', items, pool, events, i, node);
      }
      assert events[..|events|] == events;
    }

    method ArriveBehind(ghost front: seq<Item>, ghost arrived: seq<Item>, events: seq<int>)
      returns (ghost arrived': seq<Item>)
      requires Valid() && items == front + arrived
      modifies this
      ensures Valid() && items == front + arrived'
      ensures Evts(arrived') == Evts(arrived) + Fitting(events, |old(pool)|)
      ensures |pool| == |old(pool)| - |Fitting(events, |old(pool)|)|
      ensures AllNodes(pool, items) == AllNodes(old(pool), old(items))
    {
      Arrive(events);
      arrived' := items[|front|..];
      Behind(front, arrived, items, Fitting(events, |old(pool)|));
    }

    /** The protected region of the clean loop, and the free after it. */
    method Unlink(pre: Option<nat>, node: nat, ghost i: nat)
      requires Valid() && i < |items| && items[i].id == node
      requires pre == if i == 0 then None else Some(items[i - 1].id)
      modifies this
      ensures Valid() && items == Splice(old(items), i)
      ensures pool == old(pool) + {node} && node !in old(pool)
    {
      SpliceLinked(next, evt, items, i);
      assert LinkAt(next, evt, items, i);
      if pre.Some? {
        next := next[pre.value := next[node]];
        next := next[node := None];
      } else {
        head := next[node];
      }
      if head == None {
        tail := None;
      } else if tail == Some(node) {
        tail := pre;
      }
      items := Splice(items, i);
      pool := pool + {node};
    }

    /** One pass of the clean loop, at a node `x` between the kept items and the rest of the snapshot. */
    method Pass(e: int, pre: Option<nat>, node: nat, events: seq<int>,
                ghost kept: seq<Item>, ghost x: Item, ghost rest: seq<Item>, ghost arrived: seq<Item>)
      returns (pre': Option<nat>, cursor: Option<nat>, ghost arrived': seq<Item>)
      requires Valid() && items == kept + [x] + rest + arrived && x.id == node && pre == LastId(kept)
      modifies this
      ensures Valid() && items == Kept(kept, x, e) + rest + arrived' && pre' == LastId(Kept(kept, x, e))
      ensures rest != [] ==> cursor == Some(rest[0].id)
      ensures Evts(arrived') == Evts(arrived) + Fitting(events, |old(pool)|)
      ensures |pool| == |old(pool)| - |Fitting(events, |old(pool)|)| + Back(x, e)
      ensures AllNodes(pool, items) == AllNodes(old(pool), old(items))
    {
      ghost var i := |kept|;
      Around(kept, x, rest, arrived);
      assert LinkAt(next, evt, items, i);
      cursor := next[node];
      arrived' := ArriveBehind(kept + [x] + rest, arrived, events);
      pre' := KeepOrUnlink(e, pre, node, kept, x, rest, arrived');
    }

    method KeepOrUnlink(e: int, pre: Option<nat>, node: nat,
                        ghost kept: seq<Item>, ghost x: Item, ghost rest: seq<Item>, ghost arrived: seq<Item>)
      returns (pre': Option<nat>)
      requires Valid() && items == kept + [x] + rest + arrived && x.id == node && pre == LastId(kept)
      modifies this
      ensures Valid() && items == Kept(kept, x, e) + rest + arrived && pre' == LastId(Kept(kept, x, e))
      ensures |pool| == |old(pool)| + Back(x, e)
      ensures AllNodes(pool, items) == AllNodes(old(pool), old(items))
    {
      ghost var i := |kept|;
      Around(kept, x, rest, arrived);
      assert LinkAt(next, evt, items, i);
      if e == VSF_EVT_NONE || evt[node] == e {
        NodesSplice(pool, items, i);
        Unlink(pre, node, i);
        pre' := pre;
      } else {
        pre' := Some(node);
      }
    }

    /**
     vsf_evtq_clean_evt. `arrivals` are the posts that come in during each pass, after the successor has been read
     and before the protected region. The call removes and frees exactly the matching events of the list it found,
     keeps the others and then everything that was accepted meanwhile, in order, and leaves head, tail and links
     consistent; no node is lost or freed twice.
     */
    method Clean(e: int, arrivals: seq<seq<int>>) returns (ghost arrived: seq<Item>)
      requires Valid()
      modifies this
      ensures Valid() && items == Keep(old(items), e) + arrived
      ensures Evts(arrived) == Accepted(old(items), e, arrivals, 0, |old(pool)|)
      ensures AllNodes(pool, items) == AllNodes(old(pool), old(items))
    {
      ghost var snap := items;
      arrived := [];
      var cursor, stop := head, tail;
      if cursor == None {
        return;
      }
      var pre: Option<nat> := None;
      var done, k := false, 0;
      ghost var seen, rest := [], snap;
      while !done
        invariant Distinct(snap) && stop == LastId(snap)
        invariant Valid() && snap == seen + rest && (done <==> rest == [])
        invariant items == Keep(seen, e) + rest + arrived
        invariant rest != [] ==> cursor == Some(rest[0].id)
        invariant pre == LastId(Keep(seen, e))
        invariant Accepted(snap, e, arrivals, 0, |old(pool)|) == Evts(arrived) + Accepted(rest, e, arrivals, k, |pool|)
        invariant AllNodes(pool, items) == AllNodes(old(pool), old(items))
        decreases |rest|
      {
        ghost var x := rest[0];
        ghost var before, free := Evts(arrived), |pool|;
        Regroup(snap, seen, rest, Keep(seen, e), arrived);
        KeepOne(seen, x, e);
        LastOfSnap(snap, seen, rest);
        var node := cursor.value;
        pre, cursor, arrived :=
          Pass(e, pre, node, Batch(arrivals, k), Keep(seen, e), x, rest[1..], arrived);
        AcceptPass(Accepted(snap, e, arrivals, 0, |old(pool)|), before, Evts(arrived), rest, e, arrivals, k, free,
                   |pool|);
        seen, rest := seen + [x], rest[1..];
        k := k + 1;
        done := Some(node) == stop;
      }
      WalkDone(snap, seen, rest, arrived, e);
    }
  }

  /** Nodes are told apart by their addresses, so the walk stops at the last item of the snapshot. */
  lemma LastOfSnap(snap: seq<Item>, seen: seq<Item>, rest: seq<Item>)
    requires Distinct(snap) && snap == seen + rest && rest != []
    ensures LastId(snap) == Some(rest[0].id) <==> |rest| == 1
  {
    assert rest[0] == snap[|seen|];
  }

  lemma WalkDone(snap: seq<Item>, seen: seq<Item>, rest: seq<Item>, arrived: seq<Item>, e: int)
    requires snap == seen + rest && rest == []
    ensures Keep(seen, e) + rest + arrived == Keep(snap, e) + arrived
  {
    assert seen == snap;
  }

  lemma AcceptPass(total: seq<int>, before: seq<int>, after: seq<int>, rest: seq<Item>, e: int,
                   arrivals: seq<seq<int>>, k: nat, free: nat, free': nat)
    requires rest != [] && total == before + Accepted(rest, e, arrivals, k, free)
    requires after == before + Fitting(Batch(arrivals, k), free)
    requires free' == free - |Fitting(Batch(arrivals, k), free)| + Back(rest[0], e)
    ensures total == after + Accepted(rest[1..], e, arrivals, k + 1, free')
  {
  }

  /** What posts do: the events that fit are appended in order, and their nodes come from the pool. */
  ghost predicate Arrived(items: seq<Item>, pool: set<nat>, items': seq<Item>, pool': set<nat>, events: seq<int>) {
    && items <= items' && Evts(items') == Evts(items) + Fitting(events, |pool|)
    && |pool'| == |pool| - |Fitting(events, |pool|)| && AllNodes(pool', items') == AllNodes(pool, items)
  }

  lemma ArrivedOne(items: seq<Item>, pool: set<nat>, items': seq<Item>, pool': set<nat>,
                   items'': seq<Item>, pool'': set<nat>, events: seq<int>, i: nat, node: Option<nat>)
    requires i < |events| && Arrived(items, pool, items', pool', events[..i]) && (node == None <==> pool' == {})
    requires node == None ==> items'' == items' && pool'' == pool'
    requires node.Some? ==> node.value in pool' && pool'' == pool' - {node.value}
    requires node.Some? ==> items'' == items' + [Item(node.value, events[i])]
    ensures Arrived(items, pool, items'', pool'', events[..i + 1])
  {
    FitOne(events, i, |pool|);
    if node.Some? {
      assert Evts(items'') == Evts(items') + [events[i]];
      NodesAppend(pool', items', Item(node.value, events[i]));
    }
  }

  lemma FitOne(events: seq<int>, i: nat, free: nat)
    requires i < |events|
    ensures var before := Fitting(events[..i], free);
      Fitting(events[..i + 1], free) == before + Fitting([events[i]], free - |before|)
  {
    assert events[..i + 1] == events[..i] + [events[i]];
  }

  lemma Behind(front: seq<Item>, arrived: seq<Item>, items: seq<Item>, more: seq<int>)
    requires front + arrived <= items && Evts(items) == Evts(front + arrived) + more
    ensures Evts(items[|front|..]) == Evts(arrived) + more
  {
    assert items == front + items[|front|..];
    assert forall i :: 0 <= i < |items| - |front| ==> Evts(items[|front|..])[i] == Evts(items)[|front| + i];
  }

  /** Which events a clean call removes: all for event 0, otherwise those with just that event; order is kept. */
  lemma {:induction false} KeepExact(s: seq<Item>, e: int)
    ensures e == 0 ==> Keep(s, e) == []
    ensures e != 0 ==> forall x :: x in Keep(s, e) <==> x in s && x.evt != e
    decreases |s|
  {
    if s != [] {
      var init, x := s[..|s| - 1], s[|s| - 1];
      assert s == init + [x];
      KeepExact(init, e);
    }
  }

  lemma {:induction false} KeepOrder(a: seq<Item>, b: seq<Item>, e: int)
    ensures Keep(a + b, e) == Keep(a, e) + Keep(b, e)
    decreases |b|
  {
    if b == [] {
      assert a + b == a;
    } else {
      assert (a + b)[..|a + b| - 1] == a + b[..|b| - 1];
      KeepOrder(a, b[..|b| - 1], e);
    }
  }

  lemma KeepOne(seen: seq<Item>, x: Item, e: int)
    ensures Keep(seen + [x], e) == Kept(Keep(seen, e), x, e)
  {
    assert (seen + [x])[..|seen|] == seen;
  }

  lemma Around(kept: seq<Item>, x: Item, rest: seq<Item>, arrived: seq<Item>)
    ensures var items, i := kept + [x] + rest + arrived, |kept|;
      && items[i] == x && (i > 0 ==> items[i - 1] == kept[i - 1]) && (rest != [] ==> items[i + 1] == rest[0])
      && Splice(items, i) == kept + rest + arrived
  {
  }

  lemma Regroup(snap: seq<Item>, seen: seq<Item>, rest: seq<Item>, kept: seq<Item>, arrived: seq<Item>)
    requires rest != [] && snap == seen + rest
    ensures snap == (seen + [rest[0]]) + rest[1..]
    ensures kept + rest + arrived == kept + [rest[0]] + rest[1..] + arrived
  {
    assert rest == [rest[0]] + rest[1..];
    assert kept + rest == kept + [rest[0]] + rest[1..];
  }

  function Kept(kept: seq<Item>, x: Item, e: int): seq<Item> {
    if Matches(x, e) then kept else kept + [x]
  }

  function LastId(s: seq<Item>): Option<nat> {
    if s == [] then None else Some(s[|s| - 1].id)
  }

  /** Freeing and taking a node moves it between the list and the pool. */
  lemma NodesSplice(pool: set<nat>, s: seq<Item>, i: nat)
    requires i < |s| && s[i].id !in pool
    ensures AllNodes(pool + {s[i].id}, Splice(s, i)) == AllNodes(pool, s) && |pool + {s[i].id}| == |pool| + 1
  {
    IdsSplice(s, i, |s| - 1);
  }

  lemma NodesAppend(pool: set<nat>, s: seq<Item>, x: Item)
    requires x.id in pool
    ensures AllNodes(pool - {x.id}, s + [x]) == AllNodes(pool, s) && |pool - {x.id}| == |pool| - 1
  {
    IdsAppend(s, x, |s|);
    assert Ids(s + [x]) == Ids(s) + {x.id};
  }

  lemma {:induction false} IdsAppend(s: seq<Item>, x: Item, n: nat)
    requires n <= |s|
    ensures IdsTo(s + [x], n) == IdsTo(s, n)
  {
    if n > 0 { IdsAppend(s, x, n - 1); }
  }

  lemma {:induction false} IdsSplice(s: seq<Item>, i: nat, n: nat)
    requires i < |s| && n < |s|
    ensures n <= i ==> IdsTo(Splice(s, i), n) == IdsTo(s, n)
    ensures n >= i ==> IdsTo(Splice(s, i), n) + {s[i].id} == IdsTo(s, n + 1)
  {
    if n > 0 { IdsSplice(s, i, n - 1); }
  }
}
