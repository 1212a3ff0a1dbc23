/** The order in which the release check installs the packages: Kahn's algorithm over the internal dependencies,
    with the listing order as the fallback. */
module InstallOrder {

  datatype Package = Package(name: string, deps: seq<string>)

  /** `to` depends on `from`. */
  datatype Edge = Edge(from: string, to: string)

  predicate Internal(dep: string) {
    "@kestrel-hq/" <= dep
  }

  function InternalDeps(deps: seq<string>): (r: seq<string>)
    ensures forall d :: d in r <==> d in deps && Internal(d)
  {
    if deps == [] then [] else
    var rest := InternalDeps(deps[..|deps| - 1]);
    if Internal(deps[|deps| - 1]) then rest + [deps[|deps| - 1]] else rest
  }

  function Names(entries: seq<Package>): (names: seq<string>)
    ensures |names| == |entries|
    ensures forall i | 0 <= i < |entries| :: names[i] == entries[i].name
  {
    seq(|entries|, i requires 0 <= i < |entries| => entries[i].name)
  }

  function EdgeSet(edges: seq<Edge>): set<Edge> {
    set e | e in edges
  }

  /** Some entry called `m` lists `d` among its dependencies, and `d` is internal and one of `names`. */
  ghost predicate DependsOn(entries: seq<Package>, names: seq<string>, m: string, d: string) {
    Internal(d) && d in names && exists e | e in entries :: e.name == m && d in e.deps
  }

  ghost predicate Needs(entries: seq<Package>, m: string, d: string) {
    DependsOn(entries, Names(entries), m, d)
  }

  ghost predicate Distinct(s: seq<string>) {
    forall i, j | 0 <= i < j < |s| :: s[i] != s[j]
  }

  /** A closed walk along dependencies. */
  ghost predicate Cycle(entries: seq<Package>, p: seq<string>) {
    && |p| >= 2 && p[0] == p[|p| - 1]
    && forall i | 0 <= i < |p| - 1 :: Needs(entries, p[i], p[i + 1])
  }

  function Elements(s: seq<string>): set<string> {
    set x | x in s
  }

  // ---- counting edges ----

  /** How many edges lead to `m` from outside `popped`. */
  function Pending(edges: seq<Edge>, popped: set<string>, m: string): nat {
    if edges == [] then 0 else
    var e := edges[|edges| - 1];
    Pending(edges[..|edges| - 1], popped, m) + if e.to == m && e.from !in popped then 1 else 0
  }

  /** The dependents of `n`, one per edge, in order. */
  function Targets(edges: seq<Edge>, n: string): seq<string> {
    if edges == [] then [] else
    var e := edges[|edges| - 1];
    Targets(edges[..|edges| - 1], n) + if e.from == n then [e.to] else []
  }

  lemma {:induction false} PendingSplit(edges: seq<Edge>, popped: set<string>, n: string, m: string)
    requires n !in popped
    ensures Pending(edges, popped, m) == Pending(edges, popped + {n}, m) + multiset(Targets(edges, n))[m]
  {
    if edges != [] {
      PendingSplit(edges[..|edges| - 1], popped, n, m);
    }
  }

  lemma {:induction false} PendingZero(edges: seq<Edge>, popped: set<string>, m: string)
    ensures Pending(edges, popped, m) == 0 <==> forall e | e in edges && e.to == m :: e.from in popped
  {
    if edges != [] {
      var front, last := edges[..|edges| - 1], edges[|edges| - 1];
      assert edges == front + [last];
      PendingZero(front, popped, m);
    }
  }

  /** A dependency of `m` that has not been popped. */
  ghost function PendingSource(edges: seq<Edge>, popped: set<string>, m: string): (d: string)
    requires Pending(edges, popped, m) > 0
    ensures d !in popped && Edge(d, m) in edges
  {
    var e := edges[|edges| - 1];
    if e.to == m && e.from !in popped then e.from else PendingSource(edges[..|edges| - 1], popped, m)
  }

  lemma {:induction false} TargetsAreEdges(edges: seq<Edge>, n: string, m: string)
    ensures m in Targets(edges, n) <==> Edge(n, m) in edges
  {
    if edges != [] {
      var front, last := edges[..|edges| - 1], edges[|edges| - 1];
      assert edges == front + [last];
      TargetsAreEdges(front, n, m);
    }
  }

  lemma {:induction false} AddEdge(edges: seq<Edge>, e: Edge)
    ensures forall m :: Pending(edges + [e], {}, m) == Pending(edges, {}, m) + if e.to == m then 1 else 0
    ensures forall n :: Targets(edges + [e], n) == Targets(edges, n) + if e.from == n then [e.to] else []
  {
    assert (edges + [e])[..|edges|] == edges;
  }

  // ---- sequences without repetition ----

  lemma {:induction false} DistinctSize(s: seq<string>)
    ensures |Elements(s)| <= |s|
    ensures |Elements(s)| == |s| <==> Distinct(s)
  {
    if s != [] {
      var front, last := s[..|s| - 1], s[|s| - 1];
      DistinctSize(front);
      assert s == front + [last];
      assert Elements(s) == Elements(front) + {last};
      if last in front {
        assert Elements(s) == Elements(front);
        var i :| 0 <= i < |front| && front[i] == last;
        assert s[i] == s[|s| - 1];
      } else if Distinct(front) {
        assert Distinct(s);
      } else {
        var i, j :| 0 <= i < j < |front| && front[i] == front[j];
        assert s[i] == s[j];
      }
    }
  }

  lemma SubsetSize(a: set<string>, b: set<string>)
    requires a <= b
    ensures |a| <= |b| && (|a| == |b| ==> a == b)
  {
    assert b == a + (b - a);
  }

  /** Two sequences without repetition and with the same elements are permutations of each other. */
  lemma {:induction false} DistinctMultiset(s: seq<string>, x: string)
    requires Distinct(s)
    ensures multiset(s)[x] == if x in s then 1 else 0
  {
    if s != [] {
      var front, last := s[..|s| - 1], s[|s| - 1];
      assert s == front + [last];
      DistinctMultiset(front, x);
    }
  }

  /** A list drawn from the names that is as long as the list of names and repeats nothing is a permutation of it. */
  lemma FullIsPermutation(topo: seq<string>, names: seq<string>)
    requires Distinct(topo) && Elements(topo) <= Elements(names) && |topo| == |names|
    ensures Distinct(names) && multiset(topo) == multiset(names)
  {
    DistinctSize(topo);
    DistinctSize(names);
    SubsetSize(Elements(topo), Elements(names));
    forall x ensures multiset(topo)[x] == multiset(names)[x] {
      DistinctMultiset(topo, x);
      DistinctMultiset(names, x);
      assert x in topo <==> x in Elements(topo);
      assert x in names <==> x in Elements(names);
    }
  }

  /** Every name in `s` comes after all that it needs. */
  ghost predicate DependenciesFirst(entries: seq<Package>, s: seq<string>) {
    forall i, d | 0 <= i < |s| && Needs(entries, s[i], d) :: d in s[..i]
  }

  // ---- cycles ----

  ghost predicate CycleIn(edges: set<Edge>, p: seq<string>) {
    && |p| >= 2 && p[0] == p[|p| - 1]
    && forall i | 0 <= i < |p| - 1 :: Edge(p[i + 1], p[i]) in edges
  }

  ghost predicate FirstIn(edges: set<Edge>, s: seq<string>) {
    forall i, d | 0 <= i < |s| && Edge(d, s[i]) in edges :: d in s[..i]
  }

  /** The edges are the dependencies of the entries. */
  ghost predicate EdgesOf(entries: seq<Package>, edges: set<Edge>) {
    forall m, d :: Edge(d, m) in edges <==> Needs(entries, m, d)
  }

  /** Following `next` for `n` steps. */
  lemma {:induction false} Walk(next: map<string, string>, start: string, n: nat) returns (w: seq<string>)
    requires start in next && forall m | m in next :: next[m] in next
    ensures |w| == n + 1 && (forall i | 0 <= i <= n :: w[i] in next)
    ensures forall i | 0 <= i < n :: w[i + 1] == next[w[i]]
  {
    if n == 0 {
      w := [start];
    } else {
      var v := Walk(next, start, n - 1);
      w := v + [next[v[n - 1]]];
    }
  }

  /** A list longer than the set its members come from repeats one. */
  lemma Repeats(names: set<string>, w: seq<string>) returns (i: nat, j: nat)
    requires |w| > |names| && forall k | 0 <= k < |w| :: w[k] in names
    ensures i < j < |w| && w[i] == w[j]
  {
    DistinctSize(w);
    SubsetSize(Elements(w), names);
    i, j :| 0 <= i < j < |w| && w[i] == w[j];
  }

  /** If every member of a non-empty set needs another member, the set contains a cycle. */
  lemma CycleInside(edges: set<Edge>, next: map<string, string>, start: string) returns (p: seq<string>)
    requires start in next && forall m | m in next :: next[m] in next && Edge(next[m], m) in edges
    ensures CycleIn(edges, p) && forall i | 0 <= i < |p| :: p[i] in next
  {
    var w := Walk(next, start, |next.Keys|);
    var i, j := Repeats(next.Keys, w);
    p := ClosedPart(edges, next, w, i, j);
  }

  /** A walk that comes back to a name goes around a cycle. */
  lemma ClosedPart(edges: set<Edge>, next: map<string, string>, w: seq<string>, i: nat, j: nat) returns (p: seq<string>)
    requires forall m | m in next :: Edge(next[m], m) in edges
    requires i < j < |w| && w[i] == w[j] && forall k | 0 <= k < |w| :: w[k] in next
    requires forall k | 0 <= k < |w| - 1 :: w[k + 1] == next[w[k]]
    ensures CycleIn(edges, p) && forall k | 0 <= k < |p| :: p[k] in next
  {
    p := w[i..j + 1];
    forall k | 0 <= k < |p| - 1 ensures Edge(p[k + 1], p[k]) in edges {
      var m := w[i + k];
      assert p[k] == m && p[k + 1] == w[i + k + 1] == next[m];
    }
  }

  /** If all names can be listed dependencies first there is no cycle. */
  lemma OrderedHasNoCycle(edges: set<Edge>, s: seq<string>, p: seq<string>)
    requires FirstIn(edges, s) && Distinct(s)
    requires forall e | e in edges :: e.from in s
    ensures !CycleIn(edges, p)
  {
    if CycleIn(edges, p) {
      assert Edge(p[|p| - 2 + 1], p[|p| - 2]) in edges;
      var last :| 0 <= last < |s| && s[last] == p[|p| - 1];
      var first := PositionFalls(edges, s, p, last, |p| - 1);
    }
  }

  /** Along a walk the positions in such a list fall. */
  lemma {:induction false} PositionFalls(edges: set<Edge>, s: seq<string>, p: seq<string>, start: nat, n: nat)
    returns (i: nat)
    requires FirstIn(edges, s) && Distinct(s)
    requires n < |p| && forall k | 0 <= k < n :: Edge(p[k + 1], p[k]) in edges
    requires start < |s| && s[start] == p[0]
    ensures i < |s| && s[i] == p[n] && i + n <= start
    decreases n
  {
    if n == 0 {
      i := start;
    } else {
      var j := PositionFalls(edges, s, p, start, n - 1);
      assert Edge(p[n - 1 + 1], p[n - 1]) in edges;
      i :| 0 <= i < j && s[i] == p[n];
    }
  }

  // ---- the algorithm ----

  /** `inDegree` and `graph` as maps; `keys` lists the keys of `inDegree` in insertion order. */
  method BuildGraph(entries: seq<Package>)
    returns (keys: seq<string>, inDegree: map<string, int>, graph: map<string, seq<string>>, ghost edges: seq<Edge>)
    ensures Distinct(keys) && Elements(keys) == inDegree.Keys == Elements(Names(entries))
    ensures forall m | m in inDegree :: inDegree[m] == Pending(edges, {}, m)
    ensures forall n :: Targets(edges, n) == if n in graph then graph[n] else []
    ensures EdgesOf(entries, EdgeSet(edges))
  {
    var names := Names(entries);
    keys, inDegree, graph, edges := [], map[], map[], [];
    NoEdges(entries, names);
    for i := 0 to |entries|
      invariant KeysAre(keys, inDegree, names[..i]) && GraphOf(inDegree, graph, edges)
      invariant (forall e | e in edges :: e.to in inDegree) && EdgesSoFar(entries, i, names, edges)
    {
      PrefixSnoc(names, i);
      keys, inDegree := AddKey(keys, inDegree, graph, edges, names[..i], names[i]);
      inDegree, graph, edges := AddDependencies(entries, i, names, inDegree, graph, edges);
    }
    assert names[..|entries|] == names;
    AllEdges(entries, edges);
  }

  lemma PrefixSnoc(s: seq<string>, i: nat)
    requires i < |s|
    ensures s[..i + 1] == s[..i] + [s[i]]
  {}

  lemma SuffixCons(s: seq<string>, i: nat)
    requires i < |s|
    ensures s[i..] == [s[i]] + s[i + 1..]
  {}

  method AddKey(keys0: seq<string>, inDegree0: map<string, int>, ghost graph: map<string, seq<string>>,
      ghost edges: seq<Edge>, ghost names: seq<string>, name: string)
    returns (keys: seq<string>, inDegree: map<string, int>)
    requires KeysAre(keys0, inDegree0, names) && GraphOf(inDegree0, graph, edges)
    requires forall e | e in edges :: e.to in inDegree0
    ensures KeysAre(keys, inDegree, names + [name]) && GraphOf(inDegree, graph, edges)
    ensures inDegree.Keys == inDegree0.Keys + {name}
  {
    keys, inDegree := keys0, inDegree0;
    if name !in inDegree {
      NewKey(keys, inDegree, graph, edges, names, name);
      keys, inDegree := keys + [name], inDegree[name := 0];
    } else {
      OldKey(keys, inDegree, names, name);
    }
  }

  lemma AllEdges(entries: seq<Package>, edges: seq<Edge>)
    requires EdgesSoFar(entries, |entries|, Names(entries), edges)
    ensures EdgesOf(entries, EdgeSet(edges))
  {
    assert entries[..|entries|] == entries;
  }

  lemma NoEdges(entries: seq<Package>, names: seq<string>)
    ensures EdgesSoFar(entries, 0, names, []) && GraphOf(map[], map[], []) && KeysAre([], map[], names[..0])
  {
    assert entries[..0] == [] && names[..0] == [];
  }

  /** The keys are the names so far, each once. */
  ghost predicate KeysAre(keys: seq<string>, inDegree: map<string, int>, names: seq<string>) {
    Distinct(keys) && Elements(keys) == inDegree.Keys == Elements(names)
  }

  /** The edges are the dependencies of the first `i` packages. */
  ghost predicate EdgesSoFar(entries: seq<Package>, i: nat, names: seq<string>, edges: seq<Edge>)
    requires i <= |entries|
  {
    forall m, d :: Edge(d, m) in edges <==> DependsOn(entries[..i], names, m, d)
  }

  /** The maps count and list exactly these edges. */
  ghost predicate GraphOf(inDegree: map<string, int>, graph: map<string, seq<string>>, edges: seq<Edge>) {
    && (forall m | m in inDegree :: inDegree[m] == Pending(edges, {}, m))
    && (forall n :: Targets(edges, n) == if n in graph then graph[n] else [])
  }

  lemma ElementsSnoc(s: seq<string>, x: string)
    ensures Elements(s + [x]) == Elements(s) + {x}
  {}

  lemma NewKey(keys: seq<string>, inDegree: map<string, int>, graph: map<string, seq<string>>, edges: seq<Edge>,
      names: seq<string>, name: string)
    requires KeysAre(keys, inDegree, names) && name !in inDegree
    requires GraphOf(inDegree, graph, edges) && forall e | e in edges :: e.to in inDegree
    ensures GraphOf(inDegree[name := 0], graph, edges)
    ensures KeysAre(keys + [name], inDegree[name := 0], names + [name])
  {
    PendingZero(edges, {}, name);
    ElementsSnoc(keys, name);
    ElementsSnoc(names, name);
    assert forall i | 0 <= i < |keys| :: keys[i] in Elements(keys);
  }

  lemma OldKey(keys: seq<string>, inDegree: map<string, int>, names: seq<string>, name: string)
    requires KeysAre(keys, inDegree, names) && name in inDegree
    ensures KeysAre(keys, inDegree, names + [name])
  {
    ElementsSnoc(names, name);
  }

  lemma DependsSnoc(entries: seq<Package>, i: nat, names: seq<string>, m: string, d: string)
    requires i < |entries|
    ensures DependsOn(entries[..i + 1], names, m, d) <==>
            DependsOn(entries[..i], names, m, d)
            || (m == entries[i].name && d in Elements(InternalDeps(entries[i].deps)) && d in names)
  {
    assert entries[..i + 1] == entries[..i] + [entries[i]];
  }

  method AddDependencies(entries: seq<Package>, i: nat, names: seq<string>,
      inDegree0: map<string, int>, graph0: map<string, seq<string>>, ghost edges0: seq<Edge>)
    returns (inDegree: map<string, int>, graph: map<string, seq<string>>, ghost edges: seq<Edge>)
    requires i < |entries| && entries[i].name in inDegree0 && GraphOf(inDegree0, graph0, edges0)
    requires (forall e | e in edges0 :: e.to in inDegree0) && EdgesSoFar(entries, i, names, edges0)
    ensures GraphOf(inDegree, graph, edges) && inDegree.Keys == inDegree0.Keys
    ensures (forall e | e in edges :: e.to in inDegree) && EdgesSoFar(entries, i + 1, names, edges)
  {
    var name, deps := entries[i].name, InternalDeps(entries[i].deps);
    ghost var added;
    inDegree, graph, edges, added := PushDependencies(name, deps, names, inDegree0, graph0, edges0);
    forall m, d ensures Edge(d, m) in edges <==> DependsOn(entries[..i + 1], names, m, d) {
      DependsSnoc(entries, i, names, m, d);
    }
  }

  lemma GraphOfMore(inDegree: map<string, int>, graph: map<string, seq<string>>, edges: seq<Edge>, e: Edge)
    requires GraphOf(inDegree, graph, edges) && e.to in inDegree
    ensures GraphOf(inDegree[e.to := inDegree[e.to] + 1],
                    graph[e.from := (if e.from in graph then graph[e.from] else []) + [e.to]], edges + [e])
  {
    AddEdge(edges, e);
  }

  method PushDependencies(name: string, internalDeps: seq<string>, names: seq<string>, inDegree0: map<string, int>,
      graph0: map<string, seq<string>>, ghost edges0: seq<Edge>)
    returns (inDegree: map<string, int>, graph: map<string, seq<string>>,
             ghost edges: seq<Edge>, ghost added: seq<Edge>)
    requires name in inDegree0 && GraphOf(inDegree0, graph0, edges0)
    ensures GraphOf(inDegree, graph, edges) && inDegree.Keys == inDegree0.Keys && edges == edges0 + added
    ensures EdgesInto(name, internalDeps, names, added)
  {
    inDegree, graph, edges, added := inDegree0, graph0, edges0, [];
    for j := 0 to |internalDeps|
      invariant GraphOf(inDegree, graph, edges) && inDegree.Keys == inDegree0.Keys && edges == edges0 + added
      invariant EdgesInto(name, internalDeps[..j], names, added)
    {
      var d := internalDeps[j];
      assert internalDeps[..j + 1] == internalDeps[..j] + [d];
      EdgesIntoSnoc(name, internalDeps[..j], names, added, d);
      if d in names {
        inDegree, graph, edges := PushEdge(inDegree, graph, edges, d, name);
        added := added + [Edge(d, name)];
      }
    }
    assert internalDeps[..|internalDeps|] == internalDeps;
  }

  method PushEdge(inDegree0: map<string, int>, graph0: map<string, seq<string>>, ghost edges0: seq<Edge>,
      d: string, name: string)
    returns (inDegree: map<string, int>, graph: map<string, seq<string>>, ghost edges: seq<Edge>)
    requires name in inDegree0 && GraphOf(inDegree0, graph0, edges0)
    ensures GraphOf(inDegree, graph, edges) && inDegree.Keys == inDegree0.Keys && edges == edges0 + [Edge(d, name)]
  {
    GraphOfMore(inDegree0, graph0, edges0, Edge(d, name));
    graph := graph0[d := (if d in graph0 then graph0[d] else []) + [name]];
    inDegree := inDegree0[name := inDegree0[name] + 1];
    edges := edges0 + [Edge(d, name)];
  }

  /** The edges lead from the listed ones of these dependencies to `name`. */
  ghost predicate EdgesInto(name: string, deps: seq<string>, names: seq<string>, added: seq<Edge>) {
    forall x :: x in added <==> x.to == name && x.from in Elements(deps) && x.from in names
  }

  lemma EdgesIntoSnoc(name: string, deps: seq<string>, names: seq<string>, added: seq<Edge>, d: string)
    requires EdgesInto(name, deps, names, added)
    ensures EdgesInto(name, deps + [d], names, if d in names then added + [Edge(d, name)] else added)
  {
    ElementsSnoc(deps, d);
  }

  /** What holds between two rounds of the loop: every in-degree counts the dependencies not yet popped, and exactly the
      names whose count is zero have been queued, once each. */
  ghost predicate Inv(edges: seq<Edge>, inDegree: map<string, int>, topo: seq<string>, queue: seq<string>) {
    && Distinct(topo + queue)
    && (forall m | m in inDegree :: inDegree[m] == Pending(edges, Elements(topo), m))
    && (forall m :: m in topo + queue <==> m in inDegree && inDegree[m] == 0)
  }

  /** In the middle of a round, with `rest` of the popped name's dependents still to visit. */
  ghost predicate RoundInv(edges: seq<Edge>, inDegree: map<string, int>, topo: seq<string>, queue: seq<string>,
      rest: seq<string>) {
    && Distinct(topo + queue)
    && (forall m | m in inDegree :: inDegree[m] == Pending(edges, Elements(topo), m) + multiset(rest)[m])
    && (forall m :: m in topo + queue <==> m in inDegree && inDegree[m] == 0)
  }

  /** The names listed come in the order in which the last of what they need came up in `topo`; those that need nothing
      come first. */
  ghost predicate InTurn(edges: set<Edge>, topo: seq<string>, listed: seq<string>) {
    forall i, j, k | 0 <= i < j < |listed| && 0 <= k < |topo| && Edge(topo[k], listed[i]) in edges ::
      NeedsFrom(edges, topo, k, listed[j])
  }

  ghost predicate NeedsFrom(edges: set<Edge>, topo: seq<string>, k: nat, m: string) {
    exists l :: k <= l < |topo| && Edge(topo[l], m) in edges
  }

  /** The head of the queue moves over. Nothing listed so far needs it. */
  lemma InTurnPop(edges: set<Edge>, topo: seq<string>, queue: seq<string>)
    requires queue != [] && InTurn(edges, topo, topo + queue)
    requires forall m, d | m in topo + queue && Edge(d, m) in edges :: d in topo
    requires queue[0] !in topo
    ensures InTurn(edges, topo + [queue[0]], (topo + [queue[0]]) + queue[1..])
  {
    var topo', listed := topo + [queue[0]], topo + queue;
    assert topo' + queue[1..] == listed;
    forall i, j, k | 0 <= i < j < |listed| && 0 <= k < |topo'| && Edge(topo'[k], listed[i]) in edges
      ensures NeedsFrom(edges, topo', k, listed[j])
    {
      assert listed[i] in topo + queue;
      assert topo'[k] in topo;
      if k < |topo| {
        assert NeedsFrom(edges, topo, k, listed[j]);
        var l :| k <= l < |topo| && Edge(topo[l], listed[j]) in edges;
        assert topo'[l] == topo[l];
      }
    }
  }

  /** A name that needs the one popped last is queued last. */
  lemma InTurnPush(edges: set<Edge>, topo: seq<string>, queue: seq<string>, m: string)
    requires topo != [] && InTurn(edges, topo, topo + queue) && Edge(topo[|topo| - 1], m) in edges
    ensures InTurn(edges, topo, topo + (queue + [m]))
  {
    var listed := topo + queue;
    assert topo + (queue + [m]) == listed + [m];
    forall i, j, k | 0 <= i < j < |listed + [m]| && 0 <= k < |topo| && Edge(topo[k], (listed + [m])[i]) in edges
      ensures NeedsFrom(edges, topo, k, (listed + [m])[j])
    {
      if j == |listed| { assert Edge(topo[|topo| - 1], m) in edges; }
    }
  }

  ghost predicate AllNeed(edges: set<Edge>, n: string, targets: seq<string>) {
    forall i | 0 <= i < |targets| :: Edge(n, targets[i]) in edges
  }

  method VisitDependents(ghost edges: seq<Edge>, inDegree0: map<string, int>, ghost topo: seq<string>,
      queue0: seq<string>, targets: seq<string>)
    returns (inDegree: map<string, int>, queue: seq<string>)
    requires RoundInv(edges, inDegree0, topo, queue0, targets)
    requires forall m | m in targets :: m in inDegree0
    requires InTurn(EdgeSet(edges), topo, topo + queue0)
    requires topo != [] && AllNeed(EdgeSet(edges), topo[|topo| - 1], targets)
    ensures Inv(edges, inDegree, topo, queue) && inDegree.Keys == inDegree0.Keys
    ensures InTurn(EdgeSet(edges), topo, topo + queue)
  {
    inDegree, queue := inDegree0, queue0;
    for k := 0 to |targets|
      invariant inDegree.Keys == inDegree0.Keys
      invariant RoundInv(edges, inDegree, topo, queue, targets[k..])
      invariant InTurn(EdgeSet(edges), topo, topo + queue)
    {
      SuffixCons(targets, k);
      inDegree, queue := VisitDependent(edges, inDegree, topo, queue, targets[k], targets[k + 1..]);
    }
    assert targets[|targets|..] == [];
    RoundEnds(edges, inDegree, topo, queue);
  }

  method VisitDependent(ghost edges: seq<Edge>, inDegree0: map<string, int>, ghost topo: seq<string>,
      queue0: seq<string>, m: string, ghost rest: seq<string>)
    returns (inDegree: map<string, int>, queue: seq<string>)
    requires RoundInv(edges, inDegree0, topo, queue0, [m] + rest) && m in inDegree0
    requires InTurn(EdgeSet(edges), topo, topo + queue0)
    requires topo != [] && Edge(topo[|topo| - 1], m) in EdgeSet(edges)
    ensures RoundInv(edges, inDegree, topo, queue, rest) && inDegree.Keys == inDegree0.Keys
    ensures InTurn(EdgeSet(edges), topo, topo + queue)
  {
    VisitOne(edges, inDegree0, topo, queue0, m, rest);
    InTurnPush(EdgeSet(edges), topo, queue0, m);
    var d := inDegree0[m] - 1;
    inDegree, queue := inDegree0[m := d], queue0;
    if d == 0 { queue := queue + [m]; }
  }

  lemma RoundEnds(edges: seq<Edge>, inDegree: map<string, int>, topo: seq<string>, queue: seq<string>)
    requires RoundInv(edges, inDegree, topo, queue, [])
    ensures Inv(edges, inDegree, topo, queue)
  {
    var none: seq<string> := [];
    assert forall m :: multiset(none)[m] == 0;
  }

  lemma VisitOne(edges: seq<Edge>, inDegree: map<string, int>, topo: seq<string>, queue: seq<string>,
      m: string, rest: seq<string>)
    requires RoundInv(edges, inDegree, topo, queue, [m] + rest) && m in inDegree
    ensures var d := inDegree[m] - 1;
            RoundInv(edges, inDegree[m := d], topo, if d == 0 then queue + [m] else queue, rest)
  {
    assert m !in topo + queue;
    assert topo + (queue + [m]) == topo + queue + [m];
  }

  method PopAll(ghost edges: seq<Edge>, inDegree0: map<string, int>, graph: map<string, seq<string>>,
      queue0: seq<string>)
    returns (topo: seq<string>)
    requires Inv(edges, inDegree0, [], queue0) && (forall e | e in edges :: e.to in inDegree0)
    requires forall n :: Targets(edges, n) == if n in graph then graph[n] else []
    ensures FirstIn(EdgeSet(edges), topo) && InTurn(EdgeSet(edges), topo, topo)
    ensures exists inDegree: map<string, int> :: inDegree.Keys == inDegree0.Keys && Inv(edges, inDegree, topo, [])
  {
    var inDegree, queue := inDegree0, queue0;
    topo := [];
    while |queue| > 0
      invariant Inv(edges, inDegree, topo, queue) && inDegree.Keys == inDegree0.Keys
      invariant FirstIn(EdgeSet(edges), topo) && InTurn(EdgeSet(edges), topo, topo + queue)
      invariant |topo| <= |inDegree0.Keys|
      decreases |inDegree0.Keys| - |topo|
    {
      var n := queue[0];
      PopReady(edges, inDegree, topo, queue);
      PopInTurn(edges, inDegree, topo, queue);
      queue := queue[1..];
      topo := topo + [n];
      var targets := if n in graph then graph[n] else [];
      inDegree, queue := VisitDependents(edges, inDegree, topo, queue, targets);
      PoppedSize(edges, inDegree, topo, queue);
    }
    assert topo + [] == topo;
  }

  lemma PopInTurn(edges: seq<Edge>, inDegree: map<string, int>, topo: seq<string>, queue: seq<string>)
    requires Inv(edges, inDegree, topo, queue) && queue != [] && InTurn(EdgeSet(edges), topo, topo + queue)
    ensures InTurn(EdgeSet(edges), topo + [queue[0]], topo + [queue[0]] + queue[1..])
    ensures AllNeed(EdgeSet(edges), queue[0], Targets(edges, queue[0]))
  {
    forall m, d | m in topo + queue && Edge(d, m) in EdgeSet(edges) ensures d in topo {
      PendingZero(edges, Elements(topo), m);
      assert d in Elements(topo);
    }
    assert (topo + queue)[|topo|] == queue[0];
    forall i | 0 <= i < |topo| ensures topo[i] != queue[0] { assert (topo + queue)[i] == topo[i]; }
    InTurnPop(EdgeSet(edges), topo, queue);
    var targets := Targets(edges, queue[0]);
    forall i | 0 <= i < |targets| ensures Edge(queue[0], targets[i]) in EdgeSet(edges) {
      TargetsAreEdges(edges, queue[0], targets[i]);
    }
  }

  lemma PoppedSize(edges: seq<Edge>, inDegree: map<string, int>, topo: seq<string>, queue: seq<string>)
    requires Inv(edges, inDegree, topo, queue)
    ensures Distinct(topo) && |topo| <= |inDegree.Keys|
  {
    assert forall i | 0 <= i < |topo| :: topo[i] == (topo + queue)[i];
    assert forall x | x in topo :: x in topo + queue;
    DistinctSize(topo);
    SubsetSize(Elements(topo), inDegree.Keys);
  }

  method InstallationOrder(entries: seq<Package>) returns (topo: seq<string>, ordered: seq<string>)
    ensures multiset(ordered) == multiset(Names(entries))
    ensures ordered == if |topo| == |entries| then topo else Names(entries)
    ensures Distinct(topo) && DependenciesFirst(entries, topo) && FirstReadyFirst(entries, topo)
    ensures |topo| == |entries| <==> Distinct(Names(entries)) && forall p :: !Cycle(entries, p)
    ensures |topo| < |entries| && Distinct(Names(entries)) ==>
              exists p :: Cycle(entries, p) && forall i | 0 <= i < |p| :: p[i] in Names(entries) && p[i] !in topo
  {
    var keys, inDegree, graph;
    ghost var edges;
    keys, inDegree, graph, edges := BuildGraph(entries);
    EdgeEnds(entries, edges);
    topo := Sort(edges, keys, inDegree, graph, Names(entries));
    ordered := if |topo| == |entries| then topo else Names(entries);
    EdgesToEntries(entries, EdgeSet(edges), topo);
    TurnToEntries(entries, EdgeSet(edges), topo);
  }

  /** Names are listed in the order in which they become ready: whatever one of them needs, a later one needs that or
      something listed after it. */
  ghost predicate FirstReadyFirst(entries: seq<Package>, topo: seq<string>) {
    forall i, j, k | 0 <= i < j < |topo| && 0 <= k < |topo| && Needs(entries, topo[i], topo[k]) ::
      exists l :: k <= l < |topo| && Needs(entries, topo[j], topo[l])
  }

  lemma TurnToEntries(entries: seq<Package>, edges: set<Edge>, topo: seq<string>)
    requires EdgesOf(entries, edges) && InTurn(edges, topo, topo)
    ensures FirstReadyFirst(entries, topo)
  {
    forall i, j, k | 0 <= i < j < |topo| && 0 <= k < |topo| && Needs(entries, topo[i], topo[k])
      ensures exists l :: k <= l < |topo| && Needs(entries, topo[j], topo[l])
    {
      assert Edge(topo[k], topo[i]) in edges;
      assert NeedsFrom(edges, topo, k, topo[j]);
      var l :| k <= l < |topo| && Edge(topo[l], topo[j]) in edges;
      assert Needs(entries, topo[j], topo[l]);
    }
  }

  method Sort(ghost edges: seq<Edge>, keys: seq<string>, inDegree: map<string, int>, graph: map<string, seq<string>>,
      ghost names: seq<string>)
    returns (topo: seq<string>)
    requires Distinct(keys) && Elements(keys) == inDegree.Keys == Elements(names) && GraphOf(inDegree, graph, edges)
    requires forall e | e in edges :: e.from in names && e.to in names
    ensures Distinct(topo) && FirstIn(EdgeSet(edges), topo) && Sorted(EdgeSet(edges), topo, names)
    ensures InTurn(EdgeSet(edges), topo, topo)
  {
    var queue := InitialQueue(keys, inDegree);
    assert [] + queue == queue && Elements([]) == {};
    assert forall x | x in names :: x in Elements(names);
    topo := PopAll(edges, inDegree, graph, queue);
    ghost var last: map<string, int> :| last.Keys == inDegree.Keys && Inv(edges, last, topo, []);
    PoppedSize(edges, last, topo, []);
    Outcome(edges, last, topo, names);
  }

  /** The sort lists all the names exactly when none is repeated and there is no cycle; otherwise, with distinct names,
      there is a cycle among those left out. */
  ghost predicate Sorted(edges: set<Edge>, topo: seq<string>, names: seq<string>) {
    && |topo| <= |names|
    && (|topo| == |names| ==> multiset(topo) == multiset(names))
    && (|topo| == |names| <==> Distinct(names) && forall p :: !CycleIn(edges, p))
    && (|topo| < |names| && Distinct(names) ==>
          exists p :: CycleIn(edges, p) && forall i | 0 <= i < |p| :: p[i] in names && p[i] !in topo)
  }

  method InitialQueue(keys: seq<string>, inDegree: map<string, int>) returns (queue: seq<string>)
    requires Distinct(keys) && Elements(keys) == inDegree.Keys
    ensures Distinct(queue) && forall m :: m in queue <==> m in inDegree && inDegree[m] == 0
  {
    queue := [];
    for i := 0 to |keys|
      invariant Distinct(queue) && forall m :: m in queue <==> m in keys[..i] && inDegree[m] == 0
    {
      assert keys[i] in Elements(keys);
      assert keys[i] !in keys[..i];
      assert keys[..i + 1] == keys[..i] + [keys[i]];
      if inDegree[keys[i]] == 0 {
        queue := queue + [keys[i]];
      }
    }
    assert keys[..|keys|] == keys;
    assert forall m :: m in keys <==> m in Elements(keys);
  }

  /** Popping the head of the queue: all it needs is already in `topo`, and its dependents are now to be visited. */
  lemma PopReady(edges: seq<Edge>, inDegree: map<string, int>, topo: seq<string>, queue: seq<string>)
    requires Inv(edges, inDegree, topo, queue) && queue != []
    requires forall e | e in edges :: e.to in inDegree
    requires FirstIn(EdgeSet(edges), topo)
    ensures RoundInv(edges, inDegree, topo + [queue[0]], queue[1..], Targets(edges, queue[0]))
    ensures FirstIn(EdgeSet(edges), topo + [queue[0]])
    ensures forall m | m in Targets(edges, queue[0]) :: m in inDegree
  {
    var n := queue[0];
    var topo' := topo + [n];
    assert topo' + queue[1..] == topo + queue;
    assert (topo + queue)[|topo|] == n;
    assert forall i | 0 <= i < |topo| :: topo[i] == (topo + queue)[i];
    assert Elements(topo') == Elements(topo) + {n};
    forall m | m in inDegree
      ensures inDegree[m] == Pending(edges, Elements(topo'), m) + multiset(Targets(edges, n))[m]
    {
      PendingSplit(edges, Elements(topo), n, m);
    }
    PendingZero(edges, Elements(topo), n);
    forall i, d | 0 <= i < |topo'| && Edge(d, topo'[i]) in EdgeSet(edges) ensures d in topo'[..i] {
      if i < |topo| { assert topo'[..i] == topo[..i]; } else { assert topo'[..i] == topo; }
    }
    forall m | m in Targets(edges, n) ensures m in inDegree {
      TargetsAreEdges(edges, n, m);
    }
  }

  /** When the queue is empty, the names left out all need one another. */
  lemma Outcome(edges: seq<Edge>, inDegree: map<string, int>, topo: seq<string>, names: seq<string>)
    requires Inv(edges, inDegree, topo, [])
    requires inDegree.Keys == Elements(names) && (forall e | e in edges :: e.from in names && e.to in names)
    requires FirstIn(EdgeSet(edges), topo)
    ensures Sorted(EdgeSet(edges), topo, names)
  {
    var all := EdgeSet(edges);
    assert topo + [] == topo;
    DistinctSize(topo);
    DistinctSize(names);
    SubsetSize(Elements(topo), Elements(names));
    assert forall x :: (x in Elements(names) <==> x in names) && (x in Elements(topo) <==> x in topo);
    if |topo| == |names| {
      FullIsPermutation(topo, names);
      forall p ensures !CycleIn(all, p) {
        OrderedHasNoCycle(all, topo, p);
      }
    } else if Distinct(names) {
      if Elements(names) <= Elements(topo) { SubsetSize(Elements(names), Elements(topo)); }
      var start :| start in Elements(names) && start !in Elements(topo);
      var p := CycleAmongLeft(edges, inDegree, topo, start);
      assert forall i | 0 <= i < |p| :: p[i] in names && p[i] !in topo;
    }
  }

  /** Each name left out needs a name left out, so there is a cycle among them. */
  lemma CycleAmongLeft(edges: seq<Edge>, inDegree: map<string, int>, topo: seq<string>, start: string)
    returns (p: seq<string>)
    requires Inv(edges, inDegree, topo, [])
    requires start in inDegree && start !in topo && forall e | e in edges :: e.from in inDegree
    ensures CycleIn(EdgeSet(edges), p) && forall i | 0 <= i < |p| :: p[i] in inDegree && p[i] !in topo
  {
    var popped := Elements(topo);
    assert topo + [] == topo;
    var next := map m | m in inDegree.Keys - popped :: PendingSource(edges, popped, m);
    p := CycleInside(EdgeSet(edges), next, start);
  }

  /** What was found out about the edges, in terms of the entries. */
  lemma EdgesToEntries(entries: seq<Package>, edges: set<Edge>, topo: seq<string>)
    requires EdgesOf(entries, edges)
    ensures FirstIn(edges, topo) ==> DependenciesFirst(entries, topo)
    ensures forall p :: CycleIn(edges, p) <==> Cycle(entries, p)
  {
    if FirstIn(edges, topo) {
      forall i, d | 0 <= i < |topo| && Needs(entries, topo[i], d) ensures d in topo[..i] {
        assert Edge(d, topo[i]) in edges;
      }
    }
    forall p ensures CycleIn(edges, p) <==> Cycle(entries, p) {
      if |p| >= 2 {
        assert forall i | 0 <= i < |p| - 1 :: Edge(p[i + 1], p[i]) in edges <==> Needs(entries, p[i], p[i + 1]);
      }
    }
  }

  lemma EdgeEnds(entries: seq<Package>, edges: seq<Edge>)
    requires EdgesOf(entries, EdgeSet(edges))
    ensures forall e | e in edges :: e.from in Names(entries) && e.to in Names(entries)
  {
    forall e | e in edges ensures e.from in Names(entries) && e.to in Names(entries) {
      assert Edge(e.from, e.to) in EdgeSet(edges);
      assert Needs(entries, e.to, e.from);
      var i :| 0 <= i < |entries| && entries[i].name == e.to;
      assert Names(entries)[i] == e.to;
    }
  }
}
