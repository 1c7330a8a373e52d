/** Path resolution of source/component/fs/vsf_fs.c: what a path means, and that opening it finds just that. */
module VfsPath {
  import opened Basics
  import opened VfsTree

  // ---------- names and components ----------

  predicate IsDiv(ch: char) {
    ch == '\\' || ch == '/'
  }

  /** Names callers may give to nodes. */
  predicate ValidName(name: string) {
    name != [] && forall i :: 0 <= i < |name| ==> !IsDiv(name[i])
  }

  /** vk_file_is_match: the path starts with the name, and the name ends there. */
  predicate IsMatch(path: string, name: string) {
    |name| <= |path| && path[..|name|] == name && (|path| == |name| || IsDiv(path[|name|]))
  }

  /** The first component of a path: everything up to a separator. */
  function Head(path: string): (r: string)
    ensures |r| <= |path| && path[..|r|] == r && (|r| < |path| ==> IsDiv(path[|r|]))
    ensures forall i :: 0 <= i < |r| ==> !IsDiv(r[i])
  {
    if path == [] || IsDiv(path[0]) then [] else [path[0]] + Head(path[1..])
  }

  /** What a path asks for: names to follow one after the other, and whether it ends in a separator. */
  datatype Route = Route(names: seq<string>, trailing: bool)

  function Parse(path: string): Route {
    if path == [] || IsDiv(path[0]) then ParseRest(path) else ParseNames(path)
  }

  function ParseNames(path: string): Route
    requires path != []
    decreases |path|, 1
  {
    var name := Head(path);
    var rest := ParseRest(path[|name|..]);
    Route([name] + rest.names, rest.trailing)
  }

  /** What may follow a name: nothing, one last separator, or a separator and more names. */
  function ParseRest(path: string): Route
    requires path == [] || IsDiv(path[0])
    decreases |path|, 0
  {
    if path == [] then Route([], false)
    else if |path| == 1 then Route([], true)
    else ParseNames(path[1..])
  }

  // ---------- a path says what it was built from ----------

  /** The names, one after the other, with the given separators between them, and an end. */
  function Join(names: seq<string>, seps: string, end: string): string
    requires |seps| + 1 == |names|
  {
    if |names| == 1 then names[0] + end else names[0] + ([seps[0]] + Join(names[1..], seps[1..], end))
  }

  /** A name of a file: not empty, and without either separator. */
  predicate PlainName(name: string) {
    name != [] && '/' !in name && '\\' !in name
  }

  predicate IsSep(ch: char) {
    ch == '/' || ch == '\\'
  }

  /** What may come after the last name. */
  predicate IsEnd(end: string) {
    end == [] || (|end| == 1 && IsSep(end[0]))
  }

  /**
   A path built from names and separators of either kind, with or without one at its beginning and one at its end, asks
   for just these names, and for a directory exactly if there is a separator at its end.
   */
  lemma ParseJoin(names: seq<string>, seps: string, begin: string, end: string)
    requires |seps| + 1 == |names| && (forall i :: 0 <= i < |names| ==> PlainName(names[i]))
    requires (forall i :: 0 <= i < |seps| ==> IsSep(seps[i])) && IsEnd(begin) && IsEnd(end)
    ensures Parse(begin + Join(names, seps, end)) == Route(names, end != [])
  {
    JoinParses(names, seps, end);
    BeginSkipped(begin, Join(names, seps, end));
  }

  lemma BeginSkipped(begin: string, path: string)
    requires IsEnd(begin) && path != [] && !IsDiv(path[0])
    ensures Parse(begin + path) == ParseNames(path)
  {
    var whole := begin + path;
    if begin == [] {
      assert whole == path;
    } else {
      assert whole[0] == begin[0] && whole[1..] == path;
    }
  }

  lemma {:induction false} JoinParses(names: seq<string>, seps: string, end: string)
    requires |seps| + 1 == |names| && (forall i :: 0 <= i < |names| ==> PlainName(names[i]))
    requires (forall i :: 0 <= i < |seps| ==> IsSep(seps[i])) && IsEnd(end)
    ensures var path := Join(names, seps, end);
      path != [] && !IsDiv(path[0]) && ParseNames(path) == Route(names, end != [])
    decreases |names|
  {
    var path, name := Join(names, seps, end), names[0];
    if |names| == 1 {
      HeadOf(name, end);
      assert path[|name|..] == end;
      assert [name] + [] == names;
    } else {
      var rest := Join(names[1..], seps[1..], end);
      JoinParses(names[1..], seps[1..], end);
      HeadOf(name, [seps[0]] + rest);
      assert path[|name|..] == [seps[0]] + rest && ([seps[0]] + rest)[1..] == rest;
      assert [name] + names[1..] == names;
    }
  }

  lemma {:induction false} HeadOf(name: string, rest: string)
    requires PlainName(name) && (rest == [] || IsSep(rest[0]))
    ensures Head(name + rest) == name && !IsDiv((name + rest)[0])
    decreases |name|
  {
    assert name[0] in name && (name + rest)[0] == name[0] && (name + rest)[1..] == name[1..] + rest;
    if |name| == 1 {
      assert name[1..] + rest == rest;
      assert Head(rest) == [];
    } else {
      HeadOf(name[1..], rest);
    }
  }

  // ---------- the abstract walk ----------

  function ChildNamed(nodes: Nodes, kids: seq<nat>, name: string): Option<nat> {
    if kids == [] then None
    else if kids[0] in nodes && nodes[kids[0]].name == name then Some(kids[0])
    else ChildNamed(nodes, kids[1..], name)
  }

  /** Following names from a node: every node on the way must be a directory. */
  function Resolve(nodes: Nodes, cur: nat, route: Route): (Err, Option<nat>)
    requires cur in nodes
    decreases |route.names|
  {
    if route.names == [] then
      if route.trailing && !nodes[cur].isDir then (InvalidParameter, None) else (Ok, Some(cur))
    else if !nodes[cur].isDir then (InvalidParameter, None)
    else match ChildNamed(nodes, nodes[cur].children, route.names[0])
         case None => (NotAvailable, None)
         case Some(k) => if k !in nodes then (NotAvailable, None)
                         else Resolve(nodes, k, Route(route.names[1..], route.trailing))
  }

  /** The nodes that a walk passes: each lists the next, which has the name asked for, and is a directory. */
  ghost predicate Leads(nodes: Nodes, at: seq<nat>, names: seq<string>) {
    && |at| == |names| + 1 && (forall i :: 0 <= i < |at| ==> at[i] in nodes)
    && forall i :: 0 <= i < |names| ==> LeadsAt(nodes, at, names, i)
  }

  ghost predicate LeadsAt(nodes: Nodes, at: seq<nat>, names: seq<string>, i: nat)
    requires i < |names| && |at| == |names| + 1
  {
    && at[i] in nodes && at[i + 1] in nodes && nodes[at[i]].isDir
    && ChildOf(nodes, at[i + 1], at[i]) && nodes[at[i + 1]].name == names[i]
  }

  /** Nothing in the directory has the name. */
  ghost predicate Missing(nodes: Nodes, d: nat, name: string) {
    forall k :: ChildOf(nodes, k, d) && k in nodes ==> nodes[k].name != name
  }

  /** Why a walk stops at a node after `i` names: a file with more to come, or a directory without the next name. */
  ghost predicate StopsAt(nodes: Nodes, route: Route, i: nat, end: nat, err: Err)
    requires i <= |route.names|
  {
    && end in nodes
    && if i == |route.names| then err == InvalidParameter && route.trailing && !nodes[end].isDir
       else if !nodes[end].isDir then err == InvalidParameter
       else err == NotAvailable && Missing(nodes, end, route.names[i])
  }

  lemma {:induction false} ChildNamedFinds(nodes: Nodes, kids: seq<nat>, name: string)
    ensures var r := ChildNamed(nodes, kids, name);
      if r.Some? then r.value in kids && r.value in nodes && nodes[r.value].name == name
      else forall k :: k in kids && k in nodes ==> nodes[k].name != name
  {
    if kids != [] { ChildNamedFinds(nodes, kids[1..], name); }
  }

  /**
   What opening a path means: the result is the node at the end of the way that the names lead, and a directory if that
   was asked for; or the error says how far the way leads and why it ends there.
   */
  lemma {:induction false} ResolveMeans(nodes: Nodes, cur: nat, route: Route) returns (at: seq<nat>)
    requires cur in nodes
    ensures 0 < |at| <= |route.names| + 1 && at[0] == cur && Leads(nodes, at, route.names[..|at| - 1])
    ensures var (err, found) := Resolve(nodes, cur, route);
      var end := at[|at| - 1];
      if err == Ok then
        |at| == |route.names| + 1 && found == Some(end) && end in nodes && (route.trailing ==> nodes[end].isDir)
      else
        found == None && StopsAt(nodes, route, |at| - 1, end, err)
    decreases |route.names|
  {
    at := [cur];
    assert Leads(nodes, at, route.names[..0]);
    if route.names != [] && nodes[cur].isDir {
      var kids := nodes[cur].children;
      ChildNamedFinds(nodes, kids, route.names[0]);
      var k := ChildNamed(nodes, kids, route.names[0]);
      if k.Some? {
        var rest := Route(route.names[1..], route.trailing);
        var tail := ResolveMeans(nodes, k.value, rest);
        var n := |tail| - 1;
        LongerWay(nodes, cur, tail, rest.names[..n], route.names[0]);
        assert [route.names[0]] + rest.names[..n] == route.names[..n + 1];
        at := [cur] + tail;
      }
    }
  }

  lemma LongerWay(nodes: Nodes, cur: nat, tail: seq<nat>, names: seq<string>, name: string)
    requires Leads(nodes, tail, names) && cur in nodes && nodes[cur].isDir
    requires ChildOf(nodes, tail[0], cur) && tail[0] in nodes && nodes[tail[0]].name == name
    ensures Leads(nodes, [cur] + tail, [name] + names)
  {
    var at, all := [cur] + tail, [name] + names;
    forall i | 0 <= i < |all| ensures LeadsAt(nodes, at, all, i) {
      if i > 0 { assert LeadsAt(nodes, tail, names, i - 1); }
    }
  }

  // ---------- the walk of the code ----------

  /** __vk_vfs_lookup_imp with a name: the first child the path matches. */
  function Lookup(nodes: Nodes, kids: seq<nat>, path: string): (r: Option<nat>)
    ensures r.Some? ==> r.value in kids && r.value in nodes && IsMatch(path, nodes[r.value].name)
  {
    if kids == [] then None
    else if kids[0] in nodes && IsMatch(path, nodes[kids[0]].name) then Some(kids[0])
    else Lookup(nodes, kids[1..], path)
  }

  predicate Named(nodes: Nodes) {
    forall n :: n in nodes && n != ROOT ==> ValidName(nodes[n].name)
  }

  /** The file the handle under construction is on. */
  function Cur(s: Fs): (r: nat)
    requires s.open != [] && s.open[|s.open| - 1] != []
  {
    s.open[|s.open| - 1][0]
  }

  /** One step of the walk in __vk_file_open. */
  function Down(s: Fs, k: nat): (r: Fs)
    requires s.open != [] && s.open[|s.open| - 1] != [] && k in s.nodes
  {
    Descended(s, |s.open| - 1, k)
  }

  function GiveUp(s: Fs): Fs
    requires s.open != []
  {
    Closed(s, |s.open| - 1)
  }

  ghost predicate Walking(s: Fs) {
    Inv(s) && Named(s.nodes) && s.open != []
  }

  lemma WalkingCur(s: Fs)
    requires Walking(s)
    ensures s.open[|s.open| - 1] != [] && Cur(s) in s.nodes
  {
    assert IsChain(s.nodes, s.open[|s.open| - 1]);
    assert UpAt(s.nodes, s.open[|s.open| - 1], 0);
  }

  /** __vk_file_open: the event-driven loop, from do_lookup_child on. The remaining path is the measure. */
  ghost function Walk(s: Fs, path: string): (Fs, Err)
    requires Walking(s)
    decreases |path|
  {
    WalkingCur(s);
    if path == [] then (s, Ok)
    else if IsDiv(path[0]) && !s.nodes[Cur(s)].isDir then (GiveUp(s), InvalidParameter)
    else if IsDiv(path[0]) && |path| == 1 then (s, Ok)
    else
      var name := if IsDiv(path[0]) then path[1..] else path;
      match Lookup(s.nodes, s.nodes[Cur(s)].children, name)
      case None => (GiveUp(s), NotAvailable)
      case Some(k) =>
        Follow(s, k);
        Walk(Down(s, k), name[|s.nodes[k].name|..])
  }

  lemma Follow(s: Fs, k: nat)
    requires Walking(s) && s.open[|s.open| - 1] != [] && ChildOf(s.nodes, k, Cur(s))
    ensures k in s.nodes && s.nodes[k].name != [] && Walking(Down(s, k)) && Cur(Down(s, k)) == k
    ensures SameTree(s.nodes, Down(s, k).nodes)
  {
    DescendedInv(s, |s.open| - 1, k);
  }

  // ---------- the walk finds what the path means ----------

  lemma MatchIsHead(path: string, name: string)
    requires ValidName(name)
    ensures IsMatch(path, name) <==> Head(path) == name
  {
    var h := Head(path);
    if IsMatch(path, name) {
      assert |h| == |name|;
    }
  }

  lemma {:induction false} LookupIsChild(nodes: Nodes, kids: seq<nat>, path: string)
    requires Named(nodes) && ROOT !in kids
    ensures Lookup(nodes, kids, path) == ChildNamed(nodes, kids, Head(path))
  {
    if kids != [] {
      LookupIsChild(nodes, kids[1..], path);
      if kids[0] in nodes { MatchIsHead(path, nodes[kids[0]].name); }
    }
  }

  /** The walk of the code, seen from the nodes alone. */
  function Trace(nodes: Nodes, cur: nat, path: string): (Err, Option<nat>)
    requires cur in nodes && Named(nodes) && Tree(nodes)
    decreases |path|
  {
    if path == [] then (Ok, Some(cur))
    else if IsDiv(path[0]) && !nodes[cur].isDir then (InvalidParameter, None)
    else if IsDiv(path[0]) && |path| == 1 then (Ok, Some(cur))
    else
      var name := if IsDiv(path[0]) then path[1..] else path;
      match Lookup(nodes, nodes[cur].children, name)
      case None => (NotAvailable, None)
      case Some(k) =>
        assert ChildOf(nodes, k, cur);
        Trace(nodes, k, name[|nodes[k].name|..])
  }

  /** Whatever the separators, the walk of the code is the abstract walk over the components. */
  lemma {:induction false} TraceResolves(nodes: Nodes, cur: nat, path: string)
    requires cur in nodes && Named(nodes) && Tree(nodes)
    requires path != [] && !IsDiv(path[0]) ==> nodes[cur].isDir
    ensures Trace(nodes, cur, path) == Resolve(nodes, cur, Parse(path))
    decreases |path|
  {
    if path != [] && !(IsDiv(path[0]) && |path| == 1) {
      var name := if IsDiv(path[0]) then path[1..] else path;
      assert Parse(path) == ParseNames(name);
      if nodes[cur].isDir {
        var kids := nodes[cur].children;
        assert ROOT !in kids by { assert ROOT in kids ==> ChildOf(nodes, ROOT, cur); }
        LookupIsChild(nodes, kids, name);
        var k := Lookup(nodes, kids, name);
        if k.Some? {
          assert ChildOf(nodes, k.value, cur);
          MatchIsHead(name, nodes[k.value].name);
          var rest := name[|Head(name)|..];
          TraceResolves(nodes, k.value, rest);
          assert Parse(rest) == ParseRest(rest);
          assert ParseNames(name).names[1..] == ParseRest(rest).names;
        }
      }
    }
  }

  lemma {:induction false} LookupSame(a: Nodes, b: Nodes, kids: seq<nat>, path: string)
    requires SameTree(a, b)
    ensures Lookup(a, kids, path) == Lookup(b, kids, path)
  {
    if kids != [] { LookupSame(a, b, kids[1..], path); }
  }

  lemma {:induction false} TraceSame(a: Nodes, b: Nodes, cur: nat, path: string)
    requires cur in a && Named(a) && Tree(a) && SameTree(a, b) && Tree(b) && Named(b)
    ensures Trace(a, cur, path) == Trace(b, cur, path)
    decreases |path|
  {
    if path != [] {
      var name := if IsDiv(path[0]) then path[1..] else path;
      LookupSame(a, b, a[cur].children, name);
      var k := Lookup(a, a[cur].children, name);
      if k.Some? {
        assert ChildOf(a, k.value, cur);
        TraceSame(a, b, k.value, name[|a[k.value].name|..]);
      }
    }
  }

  /** The handles open before are untouched; the new one is on the node that was found, or gone after a failure. */
  ghost predicate WalkEnds(s: Fs, r: Fs, err: Err, found: Option<nat>)
    requires s.open != []
  {
    var n := |s.open| - 1;
    && Inv(r)
    && if err == Ok then
         && |r.open| == n + 1 && r.open[..n] == s.open[..n] && r.open[n] != [] && found == Some(Cur(r))
         && SameTree(s.nodes, r.nodes)
       else r.open == s.open[..n] && found == None
  }

  lemma {:induction false} WalkTraces(s: Fs, path: string)
    requires Walking(s) && s.open[|s.open| - 1] != [] && Cur(s) in s.nodes
    ensures var (r, err) := Walk(s, path); var (e, found) := Trace(s.nodes, Cur(s), path);
      err == e && WalkEnds(s, r, err, found)
    decreases |path|
  {
    var n := |s.open| - 1;
    assert s.open == s.open[..n] + [s.open[n]];
    if path == [] || (IsDiv(path[0]) && |path| == 1 && s.nodes[Cur(s)].isDir) {
    } else if IsDiv(path[0]) && !s.nodes[Cur(s)].isDir {
      GivingUp(s);
    } else {
      var name := if IsDiv(path[0]) then path[1..] else path;
      var k := Lookup(s.nodes, s.nodes[Cur(s)].children, name);
      if k.None? {
        GivingUp(s);
      } else {
        assert ChildOf(s.nodes, k.value, Cur(s));
        Follow(s, k.value);
        var m, rest := Down(s, k.value), name[|s.nodes[k.value].name|..];
        WalkTraces(m, rest);
        TraceSame(s.nodes, m.nodes, k.value, rest);
        EndsFromStep(s, k.value, Walk(m, rest).0, Walk(m, rest).1, Trace(m.nodes, k.value, rest).1);
      }
    }
  }

  lemma EndsFromStep(s: Fs, k: nat, r: Fs, err: Err, found: Option<nat>)
    requires s.open != [] && s.open[|s.open| - 1] != [] && k in s.nodes
    requires SameTree(s.nodes, Down(s, k).nodes) && WalkEnds(Down(s, k), r, err, found)
    ensures WalkEnds(s, r, err, found)
  {
    var n := |s.open| - 1;
    assert Down(s, k).open[..n] == s.open[..n];
  }

  lemma GivingUp(s: Fs)
    requires Walking(s)
    ensures Inv(GiveUp(s)) && GiveUp(s).open == s.open[..|s.open| - 1]
  {
    ClosedInv(s, |s.open| - 1);
  }

  /**
   vk_file_open of a path from a directory that the chain `c` leads to: the error and the node are those of the
   abstract walk over the components of the path.
   */
  lemma OpenResolves(s: Fs, c: seq<nat>, path: string)
    requires Inv(s) && Named(s.nodes) && IsChain(s.nodes, c) && c[0] in s.nodes && s.nodes[c[0]].isDir
    ensures Walking(Opened(s, c))
    ensures var (r, err) := Walk(Opened(s, c), path); var (e, found) := Resolve(s.nodes, c[0], Parse(path));
      && err == e && Inv(r)
      && (err == Ok ==> |r.open| == |s.open| + 1 && r.open[..|s.open|] == s.open
                        && r.open[|s.open|] != [] && found == Some(Cur(r)) && SameTree(s.nodes, r.nodes))
      && (err != Ok ==> r.open == s.open && found == None)
  {
    OpenedInv(s, c);
    var m := Opened(s, c);
    assert m.open[..|s.open|] == s.open;
    WalkingCur(m);
    WalkTraces(m, path);
    TraceSame(s.nodes, m.nodes, c[0], path);
    TraceResolves(s.nodes, c[0], path);
  }

  // ---------- a failed open ----------

  /** No unlinked node is kept alive by the handle under construction alone. */
  ghost predicate Spare(s: Fs)
    requires s.open != []
  {
    forall n :: n in s.nodes && s.nodes[n].toUnlink ==> Below(s.open[..|s.open| - 1], n) > 0
  }

  /** Then giving the handle up frees nothing. */
  lemma GiveUpKeeps(s: Fs)
    requires Walking(s) && Spare(s)
    ensures SameTree(s.nodes, GiveUp(s).nodes)
  {
    var n := |s.open| - 1;
    var c := s.open[n];
    ClosedInv(s, n);
    assert Without(s.open, n) == s.open[..n];
    WalkingCur(s);
    assert c[0] in GiveUp(s).nodes;
    BelowWithout(s.open, n, c[0]);
    assert GiveUp(s).nodes == Bump(s.nodes, c, -1);
  }

  lemma {:induction false} WalkFails(s: Fs, path: string)
    requires Walking(s) && Spare(s) && Walk(s, path).1 != Ok
    ensures SameTree(s.nodes, Walk(s, path).0.nodes)
    decreases |path|
  {
    WalkingCur(s);
    assert SameTree(s.nodes, GiveUp(s).nodes) by { GiveUpKeeps(s); }
    if path != [] && !(IsDiv(path[0]) && !s.nodes[Cur(s)].isDir) {
      var name := if IsDiv(path[0]) then path[1..] else path;
      var k := Lookup(s.nodes, s.nodes[Cur(s)].children, name);
      if k.Some? {
        assert ChildOf(s.nodes, k.value, Cur(s));
        Follow(s, k.value);
        DownSpare(s, k.value);
        var m, rest := Down(s, k.value), name[|s.nodes[k.value].name|..];
        WalkFails(m, rest);
        SameTreeTrans(s.nodes, m.nodes, Walk(m, rest).0.nodes);
      }
    }
  }

  lemma DownSpare(s: Fs, k: nat)
    requires s.open != [] && s.open[|s.open| - 1] != [] && k in s.nodes && Spare(s)
    ensures Spare(Down(s, k))
  {
    assert Down(s, k).open[..|s.open| - 1] == s.open[..|s.open| - 1];
  }

  lemma SameTreeTrans(a: Nodes, b: Nodes, c: Nodes)
    requires SameTree(a, b) && SameTree(b, c)
    ensures SameTree(a, c)
  {
  }

  /** An open that fails, at whatever component, leaves every count, every node and every handle as it was. */
  lemma FailedOpenChangesNothing(s: Fs, c: seq<nat>, path: string)
    requires Inv(s) && Named(s.nodes) && IsChain(s.nodes, c) && c[0] in s.nodes && s.nodes[c[0]].isDir
    requires Walking(Opened(s, c)) && Walk(Opened(s, c), path).1 != Ok
    ensures var r := Walk(Opened(s, c), path).0;
      && r.open == s.open && r.nodes.Keys == s.nodes.Keys
      && forall n :: n in s.nodes ==> r.nodes[n] == s.nodes[n].(parent := r.nodes[n].parent)
  {
    var m := Opened(s, c);
    var r := Walk(m, path).0;
    assert SameTree(m.nodes, r.nodes) by {
      OpenedSpare(s, c);
      WalkFails(m, path);
    }
    assert Inv(r) && r.open == s.open by { OpenResolves(s, c, path); }
    SameCounts(s, c, r);
  }

  /** Two states with the same tree and the same open handles have the same counts. */
  lemma SameCounts(s: Fs, c: seq<nat>, r: Fs)
    requires Inv(s) && Inv(r) && r.open == s.open && SameTree(Opened(s, c).nodes, r.nodes)
    ensures r.nodes.Keys == s.nodes.Keys
    ensures forall n :: n in s.nodes ==> r.nodes[n] == s.nodes[n].(parent := r.nodes[n].parent)
  {
  }

  lemma OpenedSpare(s: Fs, c: seq<nat>)
    requires Inv(s)
    ensures Spare(Opened(s, c))
  {
    assert Opened(s, c).open[..|s.open|] == s.open;
  }
}
