/** Walks in a graph, seen as a map from each node to the list of its children. */
module Walks {

  ghost predicate Closed<N>(adj: map<N, seq<N>>) {
    forall u, k {:trigger adj[u][k]} :: u in adj && 0 <= k < |adj[u]| ==> adj[u][k] in adj
  }

  ghost predicate Walk<N>(adj: map<N, seq<N>>, older p: seq<N>) {
    && (forall i {:trigger p[i]} :: 0 <= i < |p| ==> p[i] in adj)
    && (forall i {:trigger Steps(adj, p, i)} :: 0 <= i < |p| - 1 ==> Steps(adj, p, i))
  }

  ghost predicate Steps<N>(adj: map<N, seq<N>>, p: seq<N>, i: nat) {
    i + 1 < |p| && p[i] in adj && p[i + 1] in adj[p[i]]
  }

  ghost function Elems<N>(s: seq<N>): (e: set<N>) {
    set x | x in s
  }

  lemma WalkSlice<N>(adj: map<N, seq<N>>, p: seq<N>, a: nat, b: nat)
    requires Walk(adj, p) && a <= b <= |p|
    ensures Walk(adj, p[a..b])
  {
    var q := p[a..b];
    forall i {:trigger Steps(adj, q, i)} | 0 <= i < |q| - 1 ensures Steps(adj, q, i) { assert Steps(adj, p, a + i); }
  }

  lemma WalkExtend<N>(adj: map<N, seq<N>>, p: seq<N>, v: N)
    requires Walk(adj, p) && v in adj && (p != [] ==> v in adj[p[|p| - 1]])
    ensures Walk(adj, p + [v])
  {
    var q := p + [v];
    forall i {:trigger Steps(adj, q, i)} | 0 <= i < |q| - 1 ensures Steps(adj, q, i) {
      if i + 1 < |p| { assert Steps(adj, p, i); }
    }
  }

  // ---- Directed graphs --------------------------------------------------

  // A node that can be reached from `roots` along p and gets back to itself along q.
  ghost predicate Loops<N>(adj: map<N, seq<N>>, roots: set<N>, older p: seq<N>, older q: seq<N>) {
    && Walk(adj, p) && p != [] && p[0] in roots
    && Walk(adj, q) && |q| >= 2 && q[0] == q[|q| - 1] == p[|p| - 1]
  }

  // A walk from `roots` that comes back to one of its own nodes.
  ghost predicate Lasso<N>(adj: map<N, seq<N>>, roots: set<N>, older p: seq<N>) {
    Walk(adj, p) && |p| >= 2 && p[0] in roots && p[|p| - 1] in p[..|p| - 1]
  }

  ghost predicate Cyclic<N>(adj: map<N, seq<N>>, roots: set<N>) {
    exists p: seq<N>, q: seq<N> :: Loops(adj, roots, p, q)
  }

  lemma LassoLoops<N>(adj: map<N, seq<N>>, roots: set<N>, p: seq<N>)
    requires Lasso(adj, roots, p)
    ensures Cyclic(adj, roots)
  {
    var n := |p| - 1;
    var j :| 0 <= j < n && p[..n][j] == p[n];
    WalkSlice(adj, p, 0, j + 1);
    WalkSlice(adj, p, j, n + 1);
    assert Loops(adj, roots, p[0..j + 1], p[j..n + 1]);
  }

  // Every node stands after all its children.
  ghost predicate Finished<N>(adj: map<N, seq<N>>, f: seq<N>) {
    && (forall i {:trigger f[i]} :: 0 <= i < |f| ==> f[i] in adj)
    && (forall i, j {:trigger f[i], f[j]} :: 0 <= i < j < |f| ==> f[i] != f[j])
    && (forall i {:trigger Settled(adj, f, i)} :: 0 <= i < |f| ==> Settled(adj, f, i))
  }

  ghost predicate Settled<N>(adj: map<N, seq<N>>, f: seq<N>, i: nat)
    requires i < |f|
  {
    f[i] in adj && forall k {:trigger adj[f[i]][k]} :: 0 <= k < |adj[f[i]]| ==> adj[f[i]][k] in f[..i]
  }

  lemma FinishedExtend<N>(adj: map<N, seq<N>>, f: seq<N>, v: N)
    requires Finished(adj, f) && v in adj && v !in f
    requires forall k {:trigger adj[v][k]} :: 0 <= k < |adj[v]| ==> adj[v][k] in f
    ensures Finished(adj, f + [v])
  {
    var g := f + [v];
    forall i {:trigger Settled(adj, g, i)} | 0 <= i < |g| ensures Settled(adj, g, i) {
      if i < |f| {
        assert Settled(adj, f, i) && g[..i] == f[..i];
      } else {
        assert g[..i] == f;
      }
    }
  }

  lemma {:induction false} FinishedStays<N>(adj: map<N, seq<N>>, f: seq<N>, p: seq<N>, i: nat, n: nat)
    returns (j: nat)
    requires Finished(adj, f) && Walk(adj, p) && n < |p| && i < |f| && f[i] == p[0]
    ensures j <= i && f[j] == p[n] && (n > 0 ==> j < i)
    decreases n
  {
    if n == 0 {
      j := i;
    } else {
      var l := FinishedStays(adj, f, p, i, n - 1);
      assert Steps(adj, p, n - 1) && Settled(adj, f, l);
      var k :| 0 <= k < |adj[p[n - 1]]| && adj[p[n - 1]][k] == p[n];
      assert adj[f[l]][k] in f[..l];
      j :| 0 <= j < l && f[..l][j] == p[n];
    }
  }

  // Once every root is finished there is nothing to loop through.
  lemma FinishedAcyclic<N>(adj: map<N, seq<N>>, f: seq<N>, roots: set<N>)
    requires Finished(adj, f) && roots <= Elems(f)
    ensures !Cyclic(adj, roots)
  {
    if Cyclic(adj, roots) {
      var p, q :| Loops(adj, roots, p, q);
      assert p[0] in f;
      var i :| 0 <= i < |f| && f[i] == p[0];
      var j := FinishedStays(adj, f, p, i, |p| - 1);
      var l := FinishedStays(adj, f, q, j, |q| - 1);
    }
  }

  // ---- Undirected graphs ------------------------------------------------

  // How often v occurs in s.
  ghost function Count<N>(s: seq<N>, v: N): (c: nat) {
    if s == [] then 0 else Count(s[..|s| - 1], v) + if s[|s| - 1] == v then 1 else 0
  }

  lemma {:induction false} CountIn<N>(s: seq<N>, v: N)
    ensures Count(s, v) > 0 <==> v in s
  {
    if s != [] {
      CountIn(s[..|s| - 1], v);
      assert s == s[..|s| - 1] + [s[|s| - 1]];
    }
  }

  lemma {:induction false} CountMonotone<N>(s: seq<N>, v: N, n: nat)
    requires n <= |s|
    ensures Count(s[..n], v) <= Count(s, v)
    decreases |s|
  {
    if n == |s| {
      assert s[..n] == s;
    } else {
      CountMonotone(s[..|s| - 1], v, n);
      assert s[..|s| - 1][..n] == s[..n];
    }
  }

  // Two places make two occurrences.
  lemma CountTwice<N>(s: seq<N>, k: nat)
    requires k < |s| && s[k] in s[..k]
    ensures Count(s, s[k]) >= 2
  {
    CountIn(s[..k], s[k]);
    assert s[..k + 1][..k] == s[..k];
    CountMonotone(s, s[k], k + 1);
  }

  // Two occurrences need two places.
  lemma {:induction false} TwoPlaces<N>(s: seq<N>, v: N) returns (k: nat, l: nat)
    requires Count(s, v) >= 2
    ensures k < l < |s| && s[k] == v == s[l]
  {
    if s[|s| - 1] == v {
      l := |s| - 1;
      CountIn(s[..l], v);
      k :| 0 <= k < l && s[..l][k] == v;
    } else {
      k, l := TwoPlaces(s[..|s| - 1], v);
    }
  }

  ghost predicate Symmetric<N>(adj: map<N, seq<N>>) {
    forall u, v {:trigger Count(adj[u], v)} :: u in adj && v in adj ==> Count(adj[u], v) == Count(adj[v], u)
  }

  lemma BackAgain<N>(adj: map<N, seq<N>>, u: N, v: N)
    requires Symmetric(adj) && u in adj && v in adj && v in adj[u]
    ensures u in adj[v]
  {
    CountIn(adj[u], v);
    CountIn(adj[v], u);
  }

  ghost predicate Different<N>(p: seq<N>) {
    forall i, j {:trigger p[i], p[j]} :: 0 <= i < j < |p| ==> p[i] != p[j]
  }

  // A cycle through the distinct nodes of p; one through two nodes only needs two parallel edges.
  ghost predicate Circle<N>(adj: map<N, seq<N>>, older p: seq<N>) {
    && p != [] && Walk(adj, p) && Different(p)
    && p[0] in adj[p[|p| - 1]]
    && (|p| == 2 ==> Count(adj[p[0]], p[1]) >= 2)
  }

  datatype Up<N> = Root | Under(parent: N)

  // A finished node f[i] has as children its parent, and nodes finished earlier, those once each.
  ghost predicate Hangs<N>(adj: map<N, seq<N>>, f: seq<N>, up: seq<Up<N>>, i: nat)
    requires i < |f| == |up|
  {
    && f[i] in adj
    && (up[i].Under? ==> up[i].parent !in f[..i + 1])
    && (forall k {:trigger adj[f[i]][k]} :: 0 <= k < |adj[f[i]]| ==> HangsOn(adj[f[i]][k], f[..i], up[i]))
    && (forall k, l {:trigger adj[f[i]][k], adj[f[i]][l]} ::
         0 <= k < l < |adj[f[i]]| && adj[f[i]][k] == adj[f[i]][l] ==> Under(adj[f[i]][k]) == up[i])
  }

  ghost predicate HangsOn<N>(v: N, f: seq<N>, up: Up<N>) {
    Under(v) == up || v in f
  }

  ghost predicate Forest<N>(adj: map<N, seq<N>>, f: seq<N>, up: seq<Up<N>>) {
    && |f| == |up|
    && (forall i {:trigger Hangs(adj, f, up, i)} :: 0 <= i < |f| ==> Hangs(adj, f, up, i))
  }

  lemma ForestExtend<N>(adj: map<N, seq<N>>, f: seq<N>, up: seq<Up<N>>, v: N, u: Up<N>)
    requires Forest(adj, f, up) && v in adj
    requires u.Under? ==> u.parent !in f + [v]
    requires forall k {:trigger adj[v][k]} :: 0 <= k < |adj[v]| ==> HangsOn(adj[v][k], f, u)
    requires forall k, l {:trigger adj[v][k], adj[v][l]} :: 0 <= k < l < |adj[v]| && adj[v][k] == adj[v][l] ==>
      Under(adj[v][k]) == u
    ensures Forest(adj, f + [v], up + [u])
  {
    var g, ups := f + [v], up + [u];
    forall i {:trigger Hangs(adj, g, ups, i)} | 0 <= i < |g| ensures Hangs(adj, g, ups, i) {
      if i < |f| {
        assert Hangs(adj, f, up, i) && g[..i] == f[..i] && g[..i + 1] == f[..i + 1];
      } else {
        assert g[..i] == f && g[..i + 1] == g;
      }
    }
  }

  // The first place of f that holds a node of p.
  lemma {:induction false} Earliest<N>(f: seq<N>, p: seq<N>, j: nat) returns (i: nat)
    requires j < |f| && f[j] in p
    ensures i < |f| && f[i] in p
    ensures forall l {:trigger f[l]} :: 0 <= l < i ==> f[l] !in p
    decreases j
  {
    if l: nat :| l < j && f[l] in p {
      i := Earliest(f, p, l);
    } else {
      i := j;
    }
  }

  // The two neighbours of a node on a cycle.
  lemma Neighbours<N>(adj: map<N, seq<N>>, p: seq<N>, m: nat) returns (a: N, b: N)
    requires Symmetric(adj) && Circle(adj, p) && m < |p|
    ensures a in p && b in p && a in adj[p[m]] && b in adj[p[m]]
    ensures |p| >= 3 ==> a != b
    ensures |p| == 2 ==> Count(adj[a], p[m]) >= 2
  {
    var n := |p|;
    var before := if m == 0 then n - 1 else m - 1;
    var after := if m == n - 1 then 0 else m + 1;
    a, b := p[before], p[after];
    if m > 0 { assert Steps(adj, p, m - 1); }
    if m < n - 1 { assert Steps(adj, p, m); }
    BackAgain(adj, a, p[m]);
    if n == 2 {
      assert Count(adj[p[0]], p[1]) == Count(adj[p[1]], p[0]);
    }
  }

  lemma ForestHoldsNoCircle<N>(adj: map<N, seq<N>>, f: seq<N>, up: seq<Up<N>>, p: seq<N>)
    requires Symmetric(adj) && Forest(adj, f, up) && adj.Keys <= Elems(f)
    ensures !Circle(adj, p)
  {
    if Circle(adj, p) {
      assert p[0] in f;
      var j :| 0 <= j < |f| && f[j] == p[0];
      var i := Earliest(f, p, j);
      var m :| 0 <= m < |p| && p[m] == f[i];
      assert Hangs(adj, f, up, i);
      var a, b := Neighbours(adj, p, m);
      InPrefix(f, i, i);
      OnlyParent(adj, f, up, p, i, a);
      OnlyParent(adj, f, up, p, i, b);
      if |p| == 2 {
        TwoEdgesUp(adj, f, up, i, a);
      }
    }
  }

  lemma InPrefix<N>(f: seq<N>, i: nat, j: nat)
    requires i <= j < |f|
    ensures f[i] in f[..j + 1]
  {
    assert f[..j + 1][i] == f[i];
  }

  lemma OnlyParent<N>(adj: map<N, seq<N>>, f: seq<N>, up: seq<Up<N>>, p: seq<N>, i: nat, a: N)
    requires |f| == |up| && i < |f| && Hangs(adj, f, up, i)
    requires forall l {:trigger f[l]} :: 0 <= l < i ==> f[l] !in p
    requires a in p && a in adj[f[i]]
    ensures up[i] == Under(a)
  {
    var k :| 0 <= k < |adj[f[i]]| && adj[f[i]][k] == a;
    assert HangsOn(adj[f[i]][k], f[..i], up[i]);
    assert a !in f[..i] by {
      forall l | 0 <= l < i ensures f[..i][l] != a { assert f[..i][l] == f[l]; }
    }
  }

  // No two edges lead to the parent.
  lemma TwoEdgesUp<N>(adj: map<N, seq<N>>, f: seq<N>, up: seq<Up<N>>, i: nat, u: N)
    requires Forest(adj, f, up) && i < |f| && up[i] == Under(u) && u in adj && u in f
    ensures Count(adj[u], f[i]) < 2
  {
    if Count(adj[u], f[i]) >= 2 {
      assert Hangs(adj, f, up, i);
      var j :| 0 <= j < |f| && f[j] == u;
      assert Hangs(adj, f, up, j);
      var k, l := TwoPlaces(adj[u], f[i]);
      assert adj[f[j]][k] == adj[f[j]][l] == f[i];
      InPrefix(f, if j <= i then j else i, if j <= i then i else j);
    }
  }

  // From a node of the stack back to itself: the rest of the stack is a cycle.
  lemma StackCircle<N>(adj: map<N, seq<N>>, stack: seq<N>, j: nat)
    requires Walk(adj, stack) && Different(stack) && j < |stack| && stack[j] in adj[stack[|stack| - 1]]
    requires j + 2 != |stack|
    ensures Circle(adj, stack[j..|stack|])
  {
    WalkSlice(adj, stack, j, |stack|);
  }

  // A second edge to a child that is done already.
  lemma PairCircle<N>(adj: map<N, seq<N>>, v: N, k: nat)
    requires Symmetric(adj) && v in adj && k < |adj[v]| && adj[v][k] in adj[v][..k]
    requires adj[v][k] in adj && adj[v][k] != v
    ensures Circle(adj, [v, adj[v][k]])
  {
    var p := [v, adj[v][k]];
    CountTwice(adj[v], k);
    BackAgain(adj, v, p[1]);
    assert Steps(adj, p, 0);
  }

  // A marked child that is not the parent closes a cycle.
  lemma CircleFound<N>(adj: map<N, seq<N>>, path: seq<N>, f: seq<N>, up: seq<Up<N>>, i: nat) returns (p: seq<N>)
    requires Closed(adj) && Symmetric(adj) && Forest(adj, f, up)
    requires path != [] && Walk(adj, path) && Different(path) && Elems(path) !! Elems(f)
    requires i < |adj[path[|path| - 1]]|
    requires adj[path[|path| - 1]][i] in path || adj[path[|path| - 1]][i] in f
    requires |path| >= 2 ==> adj[path[|path| - 1]][i] != path[|path| - 2]
    requires forall j {:trigger up[j]} :: 0 <= j < |f| && up[j] == Under(path[|path| - 1]) ==>
      f[j] in adj[path[|path| - 1]][..i]
    ensures Circle(adj, p)
  {
    var v := path[|path| - 1];
    var child := adj[v][i];
    if child in path {
      var j :| 0 <= j < |path| && path[j] == child;
      StackCircle(adj, path, j);
      p := path[j..|path|];
    } else {
      var j :| 0 <= j < |f| && f[j] == child;
      assert Hangs(adj, f, up, j);
      BackAgain(adj, v, child);
      var k :| 0 <= k < |adj[child]| && adj[child][k] == v;
      assert HangsOn(adj[f[j]][k], f[..j], up[j]);
      assert v in Elems(path);
      assert v !in f[..j] by {
        forall l | 0 <= l < j ensures f[..j][l] != v { assert f[..j][l] == f[l] && f[l] in Elems(f); }
      }
      PairCircle(adj, v, i);
      p := [v, child];
    }
  }

  // ---- Edge lists -------------------------------------------------------

  datatype GraphEdge<N> = GraphEdge(From: N, To: N, Weight: int)

  predicate Joins<N(==)>(e: GraphEdge<N>, u: N, v: N) {
    (e.From == u && e.To == v) || (e.From == v && e.To == u)
  }

  // How often u's list of children must hold v; a self-loop is entered twice.
  ghost function Links<N>(edges: seq<GraphEdge<N>>, u: N, v: N): (c: nat) {
    if edges == [] then 0 else
      var e := edges[|edges| - 1];
      Links(edges[..|edges| - 1], u, v) + (if e.From == u && e.To == v then 1 else 0) + if e.To == u && e.From == v
        then 1 else 0
  }

  lemma {:induction false} LinksSymmetric<N>(edges: seq<GraphEdge<N>>, u: N, v: N)
    ensures Links(edges, u, v) == Links(edges, v, u)
  {
    if edges != [] { LinksSymmetric(edges[..|edges| - 1], u, v); }
  }

  ghost function LinkAt<N>(edges: seq<GraphEdge<N>>, u: N, v: N): (i: nat)
    requires Links(edges, u, v) > 0
    ensures i < |edges| && Joins(edges[i], u, v)
  {
    var n := |edges| - 1;
    if Joins(edges[n], u, v) then n else LinkAt(edges[..n], u, v)
  }

  lemma {:induction false} LinksCount<N>(edges: seq<GraphEdge<N>>, u: N, v: N, i: nat)
    requires i < |edges| && Joins(edges[i], u, v)
    ensures Links(edges, u, v) > 0
  {
    if i < |edges| - 1 { LinksCount(edges[..|edges| - 1], u, v, i); }
  }

  lemma {:induction false} TwoLinksCount<N>(edges: seq<GraphEdge<N>>, u: N, v: N, i: nat, j: nat)
    requires i < j < |edges| && Joins(edges[i], u, v) && Joins(edges[j], u, v)
    ensures Links(edges, u, v) >= 2
  {
    if j < |edges| - 1 {
      TwoLinksCount(edges[..|edges| - 1], u, v, i, j);
    } else {
      LinksCount(edges[..j], u, v, i);
    }
  }

  lemma {:induction false} TwoLinks<N>(edges: seq<GraphEdge<N>>, u: N, v: N) returns (i: nat, j: nat)
    requires u != v && Links(edges, u, v) >= 2
    ensures i < j < |edges| && Joins(edges[i], u, v) && Joins(edges[j], u, v)
  {
    var n := |edges| - 1;
    if Joins(edges[n], u, v) {
      i, j := LinkAt(edges[..n], u, v), n;
    } else {
      i, j := TwoLinks(edges[..n], u, v);
    }
  }

  function Next(i: nat, n: nat): nat { if i + 1 == n then 0 else i + 1 }

  ghost predicate Closes<N>(edges: seq<GraphEdge<N>>, p: seq<N>, e: seq<nat>, i: nat)
    requires |p| == |e|
  {
    i < |p| && Next(i, |p|) < |p| && e[i] < |edges| && Joins(edges[e[i]], p[i], p[Next(i, |p|)])
  }

  // A cycle of the multigraph: distinct nodes joined in a ring by distinct edges.
  ghost predicate Ring<N>(nodes: set<N>, edges: seq<GraphEdge<N>>, older p: seq<N>, e: seq<nat>) {
    && (forall i {:trigger p[i]} :: 0 <= i < |p| ==> p[i] in nodes)
    && |p| == |e| >= 1 && Different(p) && Different(e)
    && forall i {:trigger Closes(edges, p, e, i)} :: 0 <= i < |p| ==> Closes(edges, p, e, i)
  }

  ghost predicate HasCycle<N>(nodes: set<N>, edges: seq<GraphEdge<N>>) {
    exists p: seq<N>, e: seq<nat> :: Ring(nodes, edges, p, e)
  }

  ghost predicate Within<N>(e: GraphEdge<N>, nodes: set<N>) {
    e.From in nodes && e.To in nodes
  }

  // The lists of children hold every edge from both its ends, and nothing else.
  ghost predicate Mirrors<N>(adj: map<N, seq<N>>, edges: seq<GraphEdge<N>>) {
    && Closed(adj)
    && (forall i {:trigger edges[i]} :: 0 <= i < |edges| ==> Within(edges[i], adj.Keys))
    && (forall u, v {:trigger Count(adj[u], v)} :: u in adj && v in adj ==> Count(adj[u], v) == Links(edges, u, v))
  }

  lemma MirrorsSymmetric<N>(adj: map<N, seq<N>>, edges: seq<GraphEdge<N>>)
    requires Mirrors(adj, edges)
    ensures Symmetric(adj)
  {
    forall u, v {:trigger Count(adj[u], v)} | u in adj && v in adj ensures Count(adj[u], v) == Count(adj[v], u) {
      LinksSymmetric(edges, u, v);
    }
  }

  lemma LinkedIsChild<N>(adj: map<N, seq<N>>, edges: seq<GraphEdge<N>>, i: nat, u: N, v: N)
    requires Mirrors(adj, edges) && i < |edges| && Joins(edges[i], u, v)
    ensures u in adj && v in adj && v in adj[u] && u in adj[v]
  {
    assert Within(edges[i], adj.Keys);
    LinksCount(edges, u, v, i);
    LinksSymmetric(edges, u, v);
    CountIn(adj[u], v);
    CountIn(adj[v], u);
  }

  lemma RingIsCircle<N>(adj: map<N, seq<N>>, edges: seq<GraphEdge<N>>, p: seq<N>, e: seq<nat>)
    requires Mirrors(adj, edges) && Ring(adj.Keys, edges, p, e)
    ensures Circle(adj, p)
  {
    var n := |p|;
    forall i | 0 <= i < n ensures p[i] in adj && p[Next(i, n)] in adj[p[i]] {
      assert Closes(edges, p, e, i);
      LinkedIsChild(adj, edges, e[i], p[i], p[Next(i, n)]);
    }
    forall i {:trigger Steps(adj, p, i)} | 0 <= i < n - 1 ensures Steps(adj, p, i) {
      assert Next(i, n) == i + 1;
    }
    assert Next(n - 1, n) == 0;
    if n == 2 {
      assert Closes(edges, p, e, 0) && Closes(edges, p, e, 1) && e[0] != e[1];
      if e[0] < e[1] {
        TwoLinksCount(edges, p[0], p[1], e[0], e[1]);
      } else {
        TwoLinksCount(edges, p[0], p[1], e[1], e[0]);
      }
    }
  }

  lemma ChildIsLinked<N>(adj: map<N, seq<N>>, edges: seq<GraphEdge<N>>, u: N, v: N)
    requires Mirrors(adj, edges) && u in adj && v in adj && v in adj[u]
    ensures Links(edges, u, v) > 0
  {
    CountIn(adj[u], v);
  }

  lemma CircleIsRing<N>(adj: map<N, seq<N>>, edges: seq<GraphEdge<N>>, p: seq<N>)
    requires Mirrors(adj, edges) && Circle(adj, p)
    ensures HasCycle(adj.Keys, edges)
  {
    var n := |p|;
    if n == 2 {
      var i, j := TwoLinks(edges, p[0], p[1]);
      var e := [i, j];
      assert Closes(edges, p, e, 0) && Closes(edges, p, e, 1);
      assert Ring(adj.Keys, edges, p, e);
    } else {
      forall i {:trigger Next(i, n)} | 0 <= i < n ensures Links(edges, p[i], p[Next(i, n)]) > 0 {
        if i < n - 1 { assert Steps(adj, p, i); }
        ChildIsLinked(adj, edges, p[i], p[Next(i, n)]);
      }
      var e := seq(n, i requires 0 <= i < n => LinkAt(edges, p[i], p[Next(i, n)]));
      forall i {:trigger Closes(edges, p, e, i)} | 0 <= i < n ensures Closes(edges, p, e, i) {
      }
      forall i, j {:trigger e[i], e[j]} | 0 <= i < j < n ensures e[i] != e[j] {
        assert Closes(edges, p, e, i) && Closes(edges, p, e, j);
        assert p[i] != p[j];
      }
      assert Ring(adj.Keys, edges, p, e);
    }
  }
}

/** Cycle detection by depth-first search in directed and undirected graphs of linked nodes. */
module Graphs {
  import opened Walks

  class GraphNode<T> {
    const Value: T
    var Children: seq<GraphNode<T>>

    constructor (value: T)
      ensures Value == value && Children == []
    {
      Value := value;
      Children := [];
    }
  }

  // The nodes that the maps `visited` and `recStack` send to true.
  class Marks<T> {
    var visited: set<GraphNode<T>>
    var recStack: set<GraphNode<T>>

    constructor ()
      ensures visited == {} && recStack == {}
    {
      visited, recStack := {}, {};
    }
  }

  type Adjacency<T> = map<GraphNode<T>, seq<GraphNode<T>>>

  // The children of every node of adj are as adj says.
  ghost predicate Pictures<T>(adj: Adjacency<T>)
    reads adj.Keys`Children
  {
    Closed(adj) && forall n {:trigger n.Children} :: n in adj ==> n.Children == adj[n]
  }

  // A search in progress: the nodes on the stack are open, those of f are done, no other is marked.
  ghost predicate Searching<T>(adj: Adjacency<T>, m: Marks<T>, stack: seq<GraphNode<T>>, f: seq<GraphNode<T>>)
    reads m
  {
    && Finished(adj, f) && Walk(adj, stack)
    && m.recStack == Elems(stack)
    && m.visited == Elems(stack) + Elems(f)
    && Elems(stack) !! Elems(f)
  }

  class DirectedGraph<T> {
    var Nodes: seq<GraphNode<T>>

    constructor ()
      ensures Nodes == []
    {
      Nodes := [];
    }

    // adj is any finite part of the heap that holds the nodes of the graph and is closed under children.
    method IsCyclic(ghost adj: Adjacency<T>) returns (cyclic: bool)
      requires Pictures(adj) && Elems(Nodes) <= adj.Keys
      ensures cyclic <==> Cyclic(adj, Elems(Nodes))
    {
      var m := new Marks<T>();
      ghost var f: seq<GraphNode<T>> := [];
      for i := 0 to |Nodes|
        invariant fresh(m) && Searching(adj, m, [], f)
        invariant forall k {:trigger Nodes[k]} :: 0 <= k < i ==> Nodes[k] in f
      {
        if Nodes[i] !in m.visited {
          var found;
          ghost var p;
          assert Nodes[i] in Elems(Nodes);
          found, f, p := isCyclicDFS(Nodes[i], m, adj, [], f);
          if found {
            LassoLoops(adj, Elems(Nodes), p);
            return true;
          }
        }
      }
      FinishedAcyclic(adj, f, Elems(Nodes));
      return false;
    }

    method isCyclicDFS(node: GraphNode<T>, m: Marks<T>, ghost adj: Adjacency<T>,
                       ghost stack: seq<GraphNode<T>>, ghost f: seq<GraphNode<T>>)
      returns (cyclic: bool, ghost g: seq<GraphNode<T>>, ghost p: seq<GraphNode<T>>)
      requires Pictures(adj) && node in adj && node !in m.visited
      requires Searching(adj, m, stack, f)
      requires stack != [] ==> node in adj[stack[|stack| - 1]]
      modifies m
      ensures cyclic ==> Lasso(adj, {(stack + [node])[0]}, p)
      ensures !cyclic ==> Searching(adj, m, stack, g) && f <= g && node in g
      decreases adj.Keys - m.visited
    {
      m.visited := m.visited + {node};
      m.recStack := m.recStack + {node};
      ghost var path := stack + [node];
      WalkExtend(adj, stack, node);
      g, p := f, [];
      assert Elems(path) == Elems(stack) + {node};
      for i := 0 to |node.Children|
        invariant Searching(adj, m, path, g) && f <= g
        invariant old(m.visited) + {node} <= m.visited
        invariant forall k {:trigger adj[node][k]} :: 0 <= k < i ==> adj[node][k] in g
      {
        var child := node.Children[i];
        assert child == adj[node][i];
        if child !in m.visited {
          var found;
          found, g, p := isCyclicDFS(child, m, adj, path, g);
          if found {
            return true, g, p;
          }
        } else if child in m.recStack {
          p := path + [child];
          WalkExtend(adj, path, child);
          assert child in path && p[..|p| - 1] == path;
          return true, g, p;
        }
      }
      m.recStack := m.recStack - {node};
      FinishedExtend(adj, g, node);
      g := g + [node];
      assert Elems(g) == Elems(g[..|g| - 1]) + {node};
      return false, g, p;
    }
  }

  // ---- Undirected graphs ------------------------------------------------

  // A search in progress, as above; the parents of done nodes are marked.
  ghost predicate Exploring<T>(adj: Adjacency<T>, m: Marks<T>, stack: seq<GraphNode<T>>,
                               f: seq<GraphNode<T>>, up: seq<Up<GraphNode<T>>>)
    reads m
  {
    && Forest(adj, f, up) && Walk(adj, stack) && Different(stack)
    && m.visited == Elems(stack) + Elems(f)
    && Elems(stack) !! Elems(f)
    && forall i {:trigger up[i]} :: 0 <= i < |up| && up[i].Under? ==> up[i].parent in m.visited
  }

  ghost predicate Entered<T>(stack: seq<GraphNode<T>>, parent: GraphNode?<T>) {
    if stack == [] then parent == null else parent == stack[|stack| - 1]
  }

  ghost function ParentOf<T>(parent: GraphNode?<T>): Up<GraphNode<T>> {
    if parent == null then Root else (var u: GraphNode<T> := parent; Under(u))
  }

  // The parents of the nodes finished since place n, all but the last, were marked after `before`.
  ghost predicate Later<T>(before: set<GraphNode<T>>, up: seq<Up<GraphNode<T>>>, n: nat, e: nat) {
    forall i {:trigger up[i]} :: n <= i < e <= |up| ==> up[i].Under? && up[i].parent !in before
  }

  method isCyclicUndirectedDFS<T>(node: GraphNode<T>, m: Marks<T>, parent: GraphNode?<T>, ghost adj: Adjacency<T>,
                                  ghost stack: seq<GraphNode<T>>, ghost f: seq<GraphNode<T>>,
                                    ghost up: seq<Up<GraphNode<T>>>)
    returns (cyclic: bool, ghost g: seq<GraphNode<T>>, ghost ups: seq<Up<GraphNode<T>>>, ghost p: seq<GraphNode<T>>)
    requires Pictures(adj) && Symmetric(adj) && node in adj && node !in m.visited
    requires Exploring(adj, m, stack, f, up) && Entered(stack, parent)
    requires parent != null ==> node in adj[parent]
    modifies m
    ensures cyclic ==> Circle(adj, p)
    ensures !cyclic ==> Exploring(adj, m, stack, g, ups)
    ensures !cyclic ==> f <= g && up <= ups && |f| < |g| && g[|g| - 1] == node && ups[|g| - 1] == ParentOf(parent)
    ensures !cyclic ==> Later(old(m.visited), ups, |f|, |g| - 1)
    decreases adj.Keys - m.visited
  {
    m.visited := m.visited + {node};
    ghost var path := stack + [node];
    WalkExtend(adj, stack, node);
    g, ups, p := f, up, [];
    assert Elems(path) == Elems(stack) + {node};
    for i := 0 to |node.Children|
      invariant Exploring(adj, m, path, g, ups) && f <= g && up <= ups
      invariant old(m.visited) + {node} <= m.visited
      invariant Later(old(m.visited), ups, |f|, |g|)
      invariant forall k {:trigger adj[node][k]} :: 0 <= k < i ==> HangsOn(adj[node][k], g, ParentOf(parent))
      invariant forall k, l {:trigger adj[node][k], adj[node][l]} ::
        0 <= k < l < i && adj[node][k] == adj[node][l] ==> Under(adj[node][k]) == ParentOf(parent)
      invariant forall j {:trigger ups[j]} :: 0 <= j < |g| && ups[j] == Under(node) ==> g[j] in adj[node][..i]
    {
      var child := node.Children[i];
      assert child == adj[node][i];
      if child == parent {
        continue;
      }
      if child in m.visited {
        p := CircleFound(adj, path, g, ups, i);
        return true, g, ups, p;
      }
      var found;
      found, g, ups, p := isCyclicUndirectedDFS(child, m, node, adj, path, g, ups);
      if found {
        return true, g, ups, p;
      }
    }
    Finish(node, m, parent, adj, stack, g, ups);
    g, ups := g + [node], ups + [ParentOf(parent)];
    return false, g, ups, p;
  }

  // With all its children done, the node is finished and leaves the stack.
  lemma Finish<T>(node: GraphNode<T>, m: Marks<T>, parent: GraphNode?<T>, adj: Adjacency<T>,
                  stack: seq<GraphNode<T>>, g: seq<GraphNode<T>>, ups: seq<Up<GraphNode<T>>>)
    requires node in adj && Entered(stack, parent) && Exploring(adj, m, stack + [node], g, ups)
    requires Walk(adj, stack) && Different(stack) && node !in stack
    requires forall k {:trigger adj[node][k]} :: 0 <= k < |adj[node]| ==> HangsOn(adj[node][k], g, ParentOf(parent))
    requires forall k, l {:trigger adj[node][k], adj[node][l]} ::
      0 <= k < l < |adj[node]| && adj[node][k] == adj[node][l] ==> Under(adj[node][k]) == ParentOf(parent)
    ensures Exploring(adj, m, stack, g + [node], ups + [ParentOf(parent)])
  {
    assert Elems(stack + [node]) == Elems(stack) + {node};
    assert parent != null ==> parent in Elems(stack);
    ForestExtend(adj, g, ups, node, ParentOf(parent));
    assert Elems(g + [node]) == Elems(g) + {node};
  }

  // s without the occurrences of x.
  function Without<N(==)>(s: seq<N>, x: N): (r: seq<N>) {
    if s == [] then [] else
      Without(s[..|s| - 1], x) + if s[|s| - 1] != x then [s[|s| - 1]] else []
  }

  lemma {:induction false} WithoutCount<N>(s: seq<N>, x: N, v: N)
    ensures Count(Without(s, x), v) == if v == x then 0 else Count(s, v)
  {
    if s != [] {
      var r := Without(s[..|s| - 1], x);
      WithoutCount(s[..|s| - 1], x, v);
      assert (r + [s[|s| - 1]])[..|r|] == r && r + [] == r;
    }
  }

  // The edges that do not join u and v.
  function Cut<N(==)>(edges: seq<GraphEdge<N>>, u: N, v: N): (r: seq<GraphEdge<N>>) {
    if edges == [] then [] else
      var e := edges[|edges| - 1];
      Cut(edges[..|edges| - 1], u, v) + if Joins(e, u, v) then [] else [e]
  }

  lemma {:induction false} CutLinks<N>(edges: seq<GraphEdge<N>>, a: N, b: N, u: N, v: N)
    ensures Links(Cut(edges, a, b), u, v) == if (u == a && v == b) || (u == b && v == a) then 0 else Links(edges, u, v)
  {
    if edges != [] {
      var r := Cut(edges[..|edges| - 1], a, b);
      CutLinks(edges[..|edges| - 1], a, b, u, v);
      assert (r + [edges[|edges| - 1]])[..|r|] == r && r + [] == r;
    }
  }

  // The edges that do not touch n.
  function Clear<N(==)>(edges: seq<GraphEdge<N>>, n: N): (r: seq<GraphEdge<N>>) {
    if edges == [] then [] else
      var e := edges[|edges| - 1];
      Clear(edges[..|edges| - 1], n) + if e.From != n && e.To != n then [e] else []
  }

  lemma {:induction false} ClearLinks<N>(edges: seq<GraphEdge<N>>, n: N, u: N, v: N)
    requires u != n && v != n
    ensures Links(Clear(edges, n), u, v) == Links(edges, u, v)
  {
    if edges != [] {
      var r := Clear(edges[..|edges| - 1], n);
      ClearLinks(edges[..|edges| - 1], n, u, v);
      assert (r + [edges[|edges| - 1]])[..|r|] == r && r + [] == r;
    }
  }

  lemma {:induction false} WithoutElems<N>(s: seq<N>, x: N)
    ensures Elems(Without(s, x)) == Elems(s) - {x}
  {
    if s != [] {
      var n := |s| - 1;
      WithoutElems(s[..n], x);
      assert Elems(s) == Elems(s[..n]) + {s[n]} by { assert s == s[..n] + [s[n]]; }
      var r := Without(s[..n], x);
      assert Elems(r + [s[n]]) == Elems(r) + {s[n]};
      assert r + [] == r;
    }
  }

  class UndirectedGraph<T> {
    var Nodes: seq<GraphNode<T>>
    var Edges: seq<GraphEdge<GraphNode<T>>>

    ghost function Adj(): (adj: Adjacency<T>)
      reads this, Elems(Nodes)`Children
      ensures adj.Keys == Elems(Nodes)
    {
      map n | n in Elems(Nodes) :: n.Children
    }

    ghost predicate Valid()
      reads this, Elems(Nodes)`Children
    {
      Different(Nodes) && Mirrors(Adj(), Edges)
    }

    constructor ()
      ensures Valid() && Nodes == [] && Edges == []
    {
      Nodes, Edges := [], [];
    }

    method AddNode(value: T) returns (node: GraphNode<T>)
      requires Valid()
      modifies this`Nodes
      ensures Valid() && fresh(node) && node.Value == value && node.Children == []
      ensures Nodes == old(Nodes) + [node]
    {
      node := new GraphNode<T>(value);
      ghost var adj := Adj();
      Nodes := Nodes + [node];
      assert Elems(Nodes) == Elems(old(Nodes)) + {node};
      assert Adj() == adj[node := []];
      NewNodeMirrors(adj, Edges, node);
    }

    // The endpoints are taken as they come: the graph stays valid exactly when both are in Nodes.
    method AddEdge(from: GraphNode<T>, to: GraphNode<T>, weight: int) returns (edge: GraphEdge<GraphNode<T>>)
      modifies this`Edges, from`Children, to`Children
      ensures Edges == old(Edges) + [edge] && edge == GraphEdge(from, to, weight)
      ensures from.Children == old(from.Children) + if from == to then [from, from] else [to]
      ensures from != to ==> to.Children == old(to.Children) + [from]
      ensures old(Valid()) ==> (Valid() <==> from in Nodes && to in Nodes)
    {
      edge := GraphEdge(from, to, weight);
      ghost var adj, valid := Adj(), Valid();
      Edges := Edges + [edge];
      from.Children := from.Children + [to];
      to.Children := to.Children + [from];
      if valid {
        if from in Nodes && to in Nodes {
          assert Adj() == Linked(adj, from, to);
          NewEdgeMirrors(adj, old(Edges), edge);
        } else {
          assert Edges[|old(Edges)|] == edge && !Within(edge, Adj().Keys);
        }
      }
    }

    // All parallel edges between the two nodes go at once.
    method RemoveEdge(from: GraphNode<T>, to: GraphNode<T>)
      modifies this`Edges, from`Children, to`Children
      ensures Edges == Cut(old(Edges), from, to)
      ensures from.Children == Without(old(from.Children), to) && to.Children == Without(old(to.Children), from)
      ensures old(Valid()) ==> Valid()
    {
      cutEdges(from, to);
      removeFromChildren(from, to);
      removeFromChildren(to, from);
      WithoutTwice(old(from.Children), to);
      CutValid(from, to);
    }

    twostate lemma CutValid(new from: GraphNode<T>, new to: GraphNode<T>)
      requires old(allocated(from) && allocated(to))
      requires Nodes == old(Nodes) && Edges == Cut(old(Edges), from, to)
      requires from.Children == Without(old(from.Children), to) && to.Children == Without(old(to.Children), from)
      requires forall n {:trigger n.Children} :: n in Elems(Nodes) && n != from && n != to ==>
        n.Children == old(n.Children)
      ensures old(Valid()) ==> Valid()
    {
      ghost var adj := old(Adj());
      if old(Valid()) {
        if from in Elems(Nodes) && to in Elems(Nodes) {
          forall n | n in Elems(Nodes) ensures Adj()[n] == Unlinked(adj, from, to)[n] {
            UnlinkedAt(adj, from, to, n);
            assert n == from || n == to || n.Children == old(n.Children);
          }
          assert Adj() == Unlinked(adj, from, to);
          CutMirrors(adj, old(Edges), from, to);
        } else {
          ForeignCut(old(Edges), adj.Keys, from, to);
          if to in Elems(Nodes) { ForeignChild(adj, to, from); }
          if from in Elems(Nodes) { ForeignChild(adj, from, to); }
          assert Adj() == adj;
        }
      }
    }

    // The filter of RemoveEdge.
    method cutEdges(from: GraphNode<T>, to: GraphNode<T>)
      modifies this`Edges
      ensures Edges == Cut(old(Edges), from, to)
    {
      var newEdges: seq<GraphEdge<GraphNode<T>>> := [];
      for i := 0 to |Edges|
        invariant newEdges == Cut(Edges[..i], from, to)
      {
        var edge := Edges[i];
        assert Edges[..i + 1][..i] == Edges[..i];
        if !((edge.From == from && edge.To == to) || (edge.From == to && edge.To == from)) {
          newEdges := newEdges + [edge];
        }
      }
      assert Edges[..|Edges|] == Edges;
      Edges := newEdges;
    }

    method removeFromChildren(node: GraphNode<T>, target: GraphNode<T>)
      modifies node`Children
      ensures node.Children == Without(old(node.Children), target)
    {
      var newChildren: seq<GraphNode<T>> := [];
      for i := 0 to |node.Children|
        invariant node.Children == old(node.Children)
        invariant newChildren == Without(node.Children[..i], target)
      {
        var child := node.Children[i];
        assert node.Children[..i + 1][..i] == node.Children[..i];
        if child != target {
          newChildren := newChildren + [child];
        }
      }
      assert node.Children[..|node.Children|] == node.Children;
      node.Children := newChildren;
    }

    // The removed node keeps its own list of children.
    method RemoveNode(node: GraphNode<T>)
      requires Valid()
      modifies this, Elems(Nodes)`Children
      ensures Valid()
      ensures Nodes == Without(old(Nodes), node) && Edges == Clear(old(Edges), node)
      ensures node.Children == old(node.Children)
    {
      ghost var adj := Adj();
      clearEdges(node);
      removeFromAll(node);
      dropNode(node);
      WithoutElems(old(Nodes), node);
      WithoutDifferent(old(Nodes), node);
      ClearMirrors(adj, Adj(), old(Edges), node);
    }

    // The first loop of RemoveNode.
    method clearEdges(node: GraphNode<T>)
      modifies this`Edges
      ensures Edges == Clear(old(Edges), node)
    {
      var newEdges: seq<GraphEdge<GraphNode<T>>> := [];
      for i := 0 to |Edges|
        invariant newEdges == Clear(Edges[..i], node)
      {
        var edge := Edges[i];
        assert Edges[..i + 1][..i] == Edges[..i];
        if edge.From != node && edge.To != node {
          newEdges := newEdges + [edge];
        }
      }
      assert Edges[..|Edges|] == Edges;
      Edges := newEdges;
    }

    // The last loop of RemoveNode.
    method dropNode(node: GraphNode<T>)
      modifies this`Nodes
      ensures Nodes == Without(old(Nodes), node)
    {
      var newNodes: seq<GraphNode<T>> := [];
      for i := 0 to |Nodes|
        invariant newNodes == Without(Nodes[..i], node)
      {
        var n := Nodes[i];
        assert Nodes[..i + 1][..i] == Nodes[..i];
        if n != node {
          newNodes := newNodes + [n];
        }
      }
      assert Nodes[..|Nodes|] == Nodes;
      Nodes := newNodes;
    }

    // The second loop of RemoveNode.
    method removeFromAll(node: GraphNode<T>)
      requires Different(Nodes)
      modifies Elems(Nodes)`Children
      ensures forall n {:trigger n.Children} :: n in Elems(Nodes) && n != node ==>
        n.Children == Without(old(n.Children), node)
      ensures node.Children == old(node.Children)
    {
      for i := 0 to |Nodes|
        invariant forall k {:trigger Nodes[k]} :: 0 <= k < i && Nodes[k] != node ==>
          Nodes[k].Children == Without(old(Nodes[k].Children), node)
        invariant forall k {:trigger Nodes[k]} :: i <= k < |Nodes| ==> Nodes[k].Children == old(Nodes[k].Children)
        invariant node.Children == old(node.Children)
      {
        var n := Nodes[i];
        assert n in Elems(Nodes);
        if n == node {
          continue;
        }
        removeFromChildren(n, node);
      }
    }

    method IsCyclic() returns (cyclic: bool)
      requires Valid()
      ensures cyclic <==> HasCycle(Elems(Nodes), Edges)
    {
      var m := new Marks<T>();
      ghost var adj := Adj();
      MirrorsSymmetric(adj, Edges);
      ghost var f: seq<GraphNode<T>>, up: seq<Up<GraphNode<T>>> := [], [];
      for i := 0 to |Nodes|
        invariant fresh(m) && Exploring(adj, m, [], f, up)
        invariant forall k {:trigger Nodes[k]} :: 0 <= k < i ==> Nodes[k] in f
      {
        if Nodes[i] !in m.visited {
          var found;
          ghost var p;
          assert Nodes[i] in Elems(Nodes);
          found, f, up, p := isCyclicUndirectedDFS(Nodes[i], m, null, adj, [], f, up);
          if found {
            CircleIsRing(adj, Edges, p);
            return true;
          }
        }
      }
      if HasCycle(Elems(Nodes), Edges) {
        ghost var p, e :| Ring(Elems(Nodes), Edges, p, e);
        RingIsCircle(adj, Edges, p, e);
        ForestHoldsNoCircle(adj, f, up, p);
      }
      return false;
    }
  }

  lemma NewNodeMirrors<N>(adj: map<N, seq<N>>, edges: seq<GraphEdge<N>>, n: N)
    requires Mirrors(adj, edges) && n !in adj
    ensures Mirrors(adj[n := []], edges)
  {
    var a := adj[n := []];
    forall u, v {:trigger Count(a[u], v)} | u in a && v in a ensures Count(a[u], v) == Links(edges, u, v) {
      if u == n || v == n {
        NoLinks(edges, adj.Keys, u, v);
        if u != n { CountIn(adj[u], v); }
      } else {
        assert Count(adj[u], v) == Links(edges, u, v);
      }
    }
    forall i {:trigger edges[i]} | 0 <= i < |edges| ensures Within(edges[i], a.Keys) {
      assert Within(edges[i], adj.Keys);
    }
  }

  lemma {:induction false} NoLinks<N>(edges: seq<GraphEdge<N>>, nodes: set<N>, u: N, v: N)
    requires forall i {:trigger edges[i]} :: 0 <= i < |edges| ==> Within(edges[i], nodes)
    requires u !in nodes || v !in nodes
    ensures Links(edges, u, v) == 0
  {
    if edges != [] {
      assert Within(edges[|edges| - 1], nodes);
      NoLinks(edges[..|edges| - 1], nodes, u, v);
    }
  }

  // The two appends of AddEdge, the second to a list the first may have extended.
  ghost function Linked<N>(adj: map<N, seq<N>>, u: N, v: N): (r: map<N, seq<N>>)
    requires u in adj && v in adj
    ensures r.Keys == adj.Keys
  {
    var a := adj[u := adj[u] + [v]];
    a[v := a[v] + [u]]
  }

  lemma NewEdgeMirrors<N>(adj: map<N, seq<N>>, edges: seq<GraphEdge<N>>, e: GraphEdge<N>)
    requires Mirrors(adj, edges) && Within(e, adj.Keys)
    ensures Mirrors(Linked(adj, e.From, e.To), edges + [e])
  {
    var a, more := Linked(adj, e.From, e.To), edges + [e];
    assert more[..|edges|] == edges;
    forall u, v {:trigger Count(a[u], v)} | u in a && v in a ensures Count(a[u], v) == Links(more, u, v) {
      assert Count(adj[u], v) == Links(edges, u, v);
      CountAppend(adj[u], e.To, v);
      CountAppend(adj[u], e.From, v);
      CountAppend(adj[u] + [e.To], e.From, v);
    }
    forall i {:trigger more[i]} | 0 <= i < |more| ensures Within(more[i], a.Keys) {
      if i < |edges| { assert Within(edges[i], adj.Keys); }
    }
  }

  lemma CountAppend<N>(s: seq<N>, x: N, v: N)
    ensures Count(s + [x], v) == Count(s, v) + if x == v then 1 else 0
  {
    assert (s + [x])[..|s|] == s;
  }

  lemma {:induction false} CutWithin<N>(edges: seq<GraphEdge<N>>, a: N, b: N, nodes: set<N>)
    requires forall i {:trigger edges[i]} :: 0 <= i < |edges| ==> Within(edges[i], nodes)
    ensures forall i {:trigger Cut(edges, a, b)[i]} :: 0 <= i < |Cut(edges, a, b)| ==>
      Within(Cut(edges, a, b)[i], nodes)
  {
    if edges != [] {
      assert Within(edges[|edges| - 1], nodes);
      CutWithin(edges[..|edges| - 1], a, b, nodes);
    }
  }

  // The two filters of RemoveEdge, the second on a list the first may have shortened.
  ghost function Unlinked<N>(adj: map<N, seq<N>>, u: N, v: N): (r: map<N, seq<N>>)
    requires u in adj && v in adj
    ensures r.Keys == adj.Keys
  {
    var a := adj[u := Without(adj[u], v)];
    a[v := Without(a[v], u)]
  }

  lemma UnlinkedAt<N>(adj: map<N, seq<N>>, u: N, v: N, n: N)
    requires {u, v, n} <= adj.Keys
    ensures Unlinked(adj, u, v)[n] ==
      if n == u then Without(adj[u], v) else if n == v then Without(adj[v], u) else adj[n]
  {
    WithoutTwice(adj[u], v);
  }

  lemma {:induction false} WithoutNone<N>(s: seq<N>, x: N)
    requires x !in s
    ensures Without(s, x) == s
  {
    if s != [] {
      var n := |s| - 1;
      WithoutNone(s[..n], x);
      assert s == s[..n] + [s[n]];
    }
  }

  lemma WithoutTwice<N>(s: seq<N>, x: N)
    ensures Without(Without(s, x), x) == Without(s, x)
  {
    WithoutElems(s, x);
    assert x !in Elems(Without(s, x));
    WithoutNone(Without(s, x), x);
  }

  // A node that is not in the graph is in no child list and on no edge.
  lemma ForeignChild<N>(adj: map<N, seq<N>>, u: N, x: N)
    requires Closed(adj) && u in adj && x !in adj
    ensures Without(adj[u], x) == adj[u]
  {
    WithoutNone(adj[u], x);
  }

  lemma {:induction false} ForeignCut<N>(edges: seq<GraphEdge<N>>, nodes: set<N>, a: N, b: N)
    requires forall i {:trigger edges[i]} :: 0 <= i < |edges| ==> Within(edges[i], nodes)
    requires a !in nodes || b !in nodes
    ensures Cut(edges, a, b) == edges
  {
    if edges != [] {
      var n := |edges| - 1;
      assert Within(edges[n], nodes);
      ForeignCut(edges[..n], nodes, a, b);
      assert edges == edges[..n] + [edges[n]];
    }
  }

  lemma WithoutSubset<N>(s: seq<N>, x: N, v: N)
    ensures v in Without(s, x) ==> v in s
  {
    WithoutElems(s, x);
    assert v in Without(s, x) ==> v in Elems(Without(s, x));
  }

  lemma CutMirrors<N>(adj: map<N, seq<N>>, edges: seq<GraphEdge<N>>, a: N, b: N)
    requires Mirrors(adj, edges) && a in adj && b in adj
    ensures Mirrors(Unlinked(adj, a, b), Cut(edges, a, b))
  {
    var r, fewer := Unlinked(adj, a, b), Cut(edges, a, b);
    forall u, v {:trigger Count(r[u], v)} | u in r && v in r ensures Count(r[u], v) == Links(fewer, u, v) {
      assert Count(adj[u], v) == Links(edges, u, v);
      UnlinkedCount(adj, a, b, u, v);
      CutLinks(edges, a, b, u, v);
    }
    forall u, k {:trigger r[u][k]} | u in r && 0 <= k < |r[u]| ensures r[u][k] in r {
      UnlinkedChild(adj, a, b, u, r[u][k]);
    }
    CutWithin(edges, a, b, adj.Keys);
  }

  lemma UnlinkedCount<N>(adj: map<N, seq<N>>, a: N, b: N, u: N, v: N)
    requires {a, b, u} <= adj.Keys
    ensures Count(Unlinked(adj, a, b)[u], v) == if (u == a && v == b) || (u == b && v == a) then 0 else Count(adj[u], v)
  {
    UnlinkedAt(adj, a, b, u);
    WithoutCount(adj[u], a, v);
    WithoutCount(adj[u], b, v);
  }

  lemma UnlinkedChild<N>(adj: map<N, seq<N>>, a: N, b: N, u: N, x: N)
    requires {a, b, u} <= adj.Keys && Closed(adj) && x in Unlinked(adj, a, b)[u]
    ensures x in adj
  {
    UnlinkedAt(adj, a, b, u);
    WithoutSubset(adj[u], a, x);
    WithoutSubset(adj[u], b, x);
  }

  lemma {:induction false} ClearWithin<N>(edges: seq<GraphEdge<N>>, n: N, nodes: set<N>)
    requires forall i {:trigger edges[i]} :: 0 <= i < |edges| ==> Within(edges[i], nodes)
    ensures forall i {:trigger Clear(edges, n)[i]} :: 0 <= i < |Clear(edges, n)| ==>
      Within(Clear(edges, n)[i], nodes - {n})
  {
    if edges != [] {
      assert Within(edges[|edges| - 1], nodes);
      ClearWithin(edges[..|edges| - 1], n, nodes);
    }
  }

  lemma {:induction false} WithoutDifferent<N>(s: seq<N>, x: N)
    requires Different(s)
    ensures Different(Without(s, x))
  {
    if s != [] {
      var n := |s| - 1;
      WithoutDifferent(s[..n], x);
      WithoutSubset(s[..n], x, s[n]);
    }
  }

  lemma ClearMirrors<N>(adj: map<N, seq<N>>, r: map<N, seq<N>>, edges: seq<GraphEdge<N>>, n: N)
    requires Mirrors(adj, edges) && r.Keys == adj.Keys - {n}
    requires forall u {:trigger r[u]} :: u in r ==> r[u] == Without(adj[u], n)
    ensures Mirrors(r, Clear(edges, n))
  {
    forall u, v {:trigger Count(r[u], v)} | u in r && v in r ensures Count(r[u], v) == Links(Clear(edges, n), u, v) {
      assert Count(adj[u], v) == Links(edges, u, v);
      ClearLinks(edges, n, u, v);
      WithoutCount(adj[u], n, v);
    }
    forall u, k {:trigger r[u][k]} | u in r && 0 <= k < |r[u]| ensures r[u][k] in r {
      WithoutElems(adj[u], n);
      assert r[u][k] in Elems(r[u]);
    }
    ClearWithin(edges, n, adj.Keys);
  }
}
