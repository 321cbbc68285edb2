/**
 The plain directed graph of graph.py: a map from each vertex to the list of its
 out-neighbours (an adjacency list). Parallel edges are kept, there is no deletion,
 and an edge is only ever added between two vertices that already exist.

 Python dictionaries iterate in insertion order; `order` records that order so that
 `edges()` is a deterministic function of the graph.
 */
module Digraph {

  datatype Graph<V> = Graph(order: seq<V>, adj: map<V, seq<V>>)

  /** No element occurs twice. */
  predicate Distinct<T(==,!new)>(s: seq<T>) {
    forall i, j :: 0 <= i < j < |s| ==> s[i] != s[j]
  }

  /** Every neighbour is itself a vertex: `add_edge` only links existing vertices. */
  ghost predicate Closed<V(!new)>(g: Graph<V>) {
    forall u, v :: u in g.adj && v in g.adj[u] ==> v in g.adj
  }

  /** The representation invariant kept by every operation of this module. */
  ghost predicate Valid<V(!new)>(g: Graph<V>) {
    && Closed(g)
    && Distinct(g.order)
    && (forall v :: v in g.adj <==> v in g.order)
  }

  /** `Graph()`: no vertices and no edges. */
  function Empty<V(!new)>(): (r: Graph<V>)
    ensures Valid(r)
    ensures r.adj.Keys == {}
  {
    Graph([], map[])
  }

  /** `add_vertex`: a new vertex starts with no neighbours; an existing one is left alone. */
  function AddVertex<V(!new)>(g: Graph<V>, v: V): (r: Graph<V>)
    ensures r.adj.Keys == g.adj.Keys + {v}
    ensures v in g.adj ==> r == g
    ensures v !in g.adj ==> r.adj[v] == [] && |r.adj| == |g.adj| + 1
    ensures forall u :: u in g.adj ==> r.adj[u] == g.adj[u]
    ensures Valid(g) ==> Valid(r)
  {
    if v in g.adj then g else Graph(g.order + [v], g.adj[v := []])
  }

  /** Adding the same vertex twice is the same as adding it once. */
  lemma AddVertexIdempotent<V(!new)>(g: Graph<V>, v: V)
    ensures AddVertex(AddVertex(g, v), v) == AddVertex(g, v)
    ensures |AddVertex(AddVertex(g, v), v).adj| == |AddVertex(g, v).adj|
  {
  }

  /** `is_vertex`. */
  predicate IsVertex<V(!new)>(g: Graph<V>, v: V) {
    v in g.adj
  }

  /** `vertices()`: a copy of the key set. */
  function Vertices<V(!new)>(g: Graph<V>): (r: set<V>)
    ensures forall v :: v in r <==> IsVertex(g, v)
    ensures Valid(g) ==> forall v :: v in r <==> v in g.order
  {
    g.adj.Keys
  }

  /** `neighbours`: the out-list of `v`, or the empty list for an unknown vertex. */
  function Neighbours<V(!new)>(g: Graph<V>, v: V): (r: seq<V>)
    ensures !IsVertex(g, v) ==> r == []
    ensures IsVertex(g, v) ==> r == g.adj[v]
    ensures Closed(g) ==> forall w :: w in r ==> IsVertex(g, w)
  {
    if v in g.adj then g.adj[v] else []
  }

  /** `is_edge`: `u` is a vertex and `v` occurs in its out-list. */
  predicate IsEdge<V(!new)>(g: Graph<V>, u: V, v: V) {
    IsVertex(g, u) && v in g.adj[u]
  }

  /** An edge is exactly a neighbour relation, and both its ends are vertices. */
  lemma IsEdgeIffNeighbour<V(!new)>(g: Graph<V>, u: V, v: V)
    requires Closed(g)
    ensures IsEdge(g, u, v) <==> v in Neighbours(g, u)
    ensures IsEdge(g, u, v) ==> IsVertex(g, u) && IsVertex(g, v)
  {
  }

  /** `add_edge`: appends `v` to `u`'s list when both are vertices, otherwise does nothing. */
  function AddEdge<V(!new)>(g: Graph<V>, u: V, v: V): (r: Graph<V>)
    ensures r.order == g.order && r.adj.Keys == g.adj.Keys
    ensures !(IsVertex(g, u) && IsVertex(g, v)) ==> r == g
    ensures IsVertex(g, u) && IsVertex(g, v) ==>
              && g.adj[u] <= r.adj[u]
              && |r.adj[u]| == |g.adj[u]| + 1
              && multiset(r.adj[u])[v] == multiset(g.adj[u])[v] + 1
    ensures forall w :: w in g.adj && w != u ==> r.adj[w] == g.adj[w]
    ensures forall a, b :: IsEdge(r, a, b) <==> IsEdge(g, a, b) || (a == u && b == v && IsVertex(g, u) && IsVertex(g, v))
    ensures Valid(g) ==> Valid(r)
  {
    if u in g.adj && v in g.adj then
      var r := Graph(g.order, g.adj[u := g.adj[u] + [v]]);
      assert r.adj[u][..|g.adj[u]|] == g.adj[u];
      r
    else
      g
  }

  /** Parallel edges are kept: adding the same edge twice lists the target twice more. */
  lemma AddEdgeKeepsParallelEdges<V(!new)>(g: Graph<V>, u: V, v: V)
    requires IsVertex(g, u) && IsVertex(g, v)
    ensures multiset(AddEdge(AddEdge(g, u, v), u, v).adj[u])[v] == multiset(g.adj[u])[v] + 2
    ensures |AddEdge(AddEdge(g, u, v), u, v).adj[u]| == |g.adj[u]| + 2
  {
  }

  /** The doctest of `add_edge`: on vertices {1, 2}, adding (1, 2) twice gives a list of length 2. */
  lemma AddEdgeTwiceExample()
    ensures AddEdge(AddEdge(AddVertex(AddVertex(Empty(), 1), 2), 1, 2), 1, 2).adj[1] == [2, 2]
  {
  }

  /** Adds every vertex of `vs`, in order. */
  function AddVertices<V(!new)>(g: Graph<V>, vs: seq<V>): (r: Graph<V>)
    ensures r.adj.Keys == g.adj.Keys + set v | v in vs
    ensures forall u :: u in g.adj ==> r.adj[u] == g.adj[u]
    ensures forall u :: u in r.adj && u !in g.adj ==> r.adj[u] == []
    ensures Valid(g) ==> Valid(r)
    decreases |vs|
  {
    if vs == [] then g else AddVertices(AddVertex(g, vs[0]), vs[1..])
  }

  /** Adds every edge of `es`, in order, skipping those with an unknown end. */
  function AddEdges<V(!new)>(g: Graph<V>, es: seq<(V, V)>): (r: Graph<V>)
    ensures r.adj.Keys == g.adj.Keys && r.order == g.order
    ensures forall a, b :: IsEdge(r, a, b) <==> IsEdge(g, a, b) || ((a, b) in es && IsVertex(g, a) && IsVertex(g, b))
    ensures Valid(g) ==> Valid(r)
    decreases |es|
  {
    if es == [] then g
    else
      var r := AddEdges(AddEdge(g, es[0].0, es[0].1), es[1..]);
      assert forall e :: e in es <==> e == es[0] || e in es[1..];
      r
  }

  /** `Graph(V, E)`: the vertices first, then the edges whose two ends are among them. */
  function Build<V(!new)>(vs: seq<V>, es: seq<(V, V)>): (r: Graph<V>)
    ensures Valid(r)
    ensures forall v :: IsVertex(r, v) <==> v in vs
    ensures forall a, b :: IsEdge(r, a, b) <==> (a, b) in es && a in vs && b in vs
  {
    var h := AddVertices(Empty(), vs);
    assert Valid(h) && forall v :: IsVertex(h, v) <==> v in vs;
    AddEdges(h, es)
  }

  /** `(v, u)` for each `u` of `ns`, in order. */
  function Pairs<V(!new)>(v: V, ns: seq<V>): (r: seq<(V, V)>)
    ensures |r| == |ns|
  {
    if ns == [] then [] else [(v, ns[0])] + Pairs(v, ns[1..])
  }

  /** The edges of the vertices of `keys`, vertex by vertex. */
  function EdgesOf<V(!new)>(keys: seq<V>, adj: map<V, seq<V>>): seq<(V, V)>
  {
    if keys == [] then []
    else (if keys[0] in adj then Pairs(keys[0], adj[keys[0]]) else []) + EdgesOf(keys[1..], adj)
  }

  /** `edges()`: the pair `(v, u)` once for each occurrence of `u` in the list of `v`. */
  function Edges<V(!new)>(g: Graph<V>): seq<(V, V)>
  {
    EdgesOf(g.order, g.adj)
  }

  /** The total length of the out-lists of `keys`. */
  function SumLengths<V(!new)>(keys: seq<V>, adj: map<V, seq<V>>): nat
  {
    if keys == [] then 0
    else (if keys[0] in adj then |adj[keys[0]]| else 0) + SumLengths(keys[1..], adj)
  }

  lemma {:induction false} PairsCount<V(!new)>(v: V, ns: seq<V>, a: V, b: V)
    ensures multiset(Pairs(v, ns))[(a, b)] == if a == v then multiset(ns)[b] else 0
    decreases |ns|
  {
    if ns != [] {
      PairsCount(v, ns[1..], a, b);
      assert ns == [ns[0]] + ns[1..];
    }
  }

  lemma {:induction false} EdgesOfCount<V(!new)>(keys: seq<V>, adj: map<V, seq<V>>, a: V, b: V)
    requires Distinct(keys)
    ensures multiset(EdgesOf(keys, adj))[(a, b)] == if a in keys && a in adj then multiset(adj[a])[b] else 0
    decreases |keys|
  {
    if keys != [] {
      var k := keys[0];
      EdgesOfCount(keys[1..], adj, a, b);
      if k in adj {
        PairsCount(k, adj[k], a, b);
      }
      assert forall x :: x in keys <==> x == k || x in keys[1..];
      assert k !in keys[1..];
    }
  }

  lemma {:induction false} EdgesOfLength<V(!new)>(keys: seq<V>, adj: map<V, seq<V>>)
    ensures |EdgesOf(keys, adj)| == SumLengths(keys, adj)
    decreases |keys|
  {
    if keys != [] {
      EdgesOfLength(keys[1..], adj);
    }
  }

  /**
   `edges()` lists `(v, u)` exactly as often as `u` occurs in the list of `v`, so its length is
   the sum of the list lengths, and a pair occurs in it exactly when `is_edge` holds of it.
   */
  lemma EdgesMultiplicity<V(!new)>(g: Graph<V>)
    requires Valid(g)
    ensures forall a, b :: multiset(Edges(g))[(a, b)] == if IsVertex(g, a) then multiset(g.adj[a])[b] else 0
    ensures forall a, b :: (a, b) in Edges(g) <==> IsEdge(g, a, b)
    ensures |Edges(g)| == SumLengths(g.order, g.adj)
  {
    forall a, b ensures multiset(Edges(g))[(a, b)] == if IsVertex(g, a) then multiset(g.adj[a])[b] else 0 {
      EdgesOfCount(g.order, g.adj, a, b);
    }
    EdgesOfLength(g.order, g.adj);
  }

  /** `is_walk`, as a predicate: non-empty, every element a vertex, every step an edge. */
  predicate Walk<V(!new)>(g: Graph<V>, w: seq<V>) {
    && |w| > 0
    && (forall i :: 0 <= i < |w| ==> IsVertex(g, w[i]))
    && (forall i :: 0 <= i < |w| - 1 ==> IsEdge(g, w[i], w[i + 1]))
  }

  /** `is_walk`, as the source computes it: vertices first, then emptiness, then each step. */
  method IsWalk<V(!new)>(g: Graph<V>, w: seq<V>) returns (b: bool)
    ensures b <==> Walk(g, w)
  {
    var k := 0;
    while k < |w|
      invariant 0 <= k <= |w|
      invariant forall i :: 0 <= i < k ==> IsVertex(g, w[i])
    {
      if !IsVertex(g, w[k]) {
        return false;
      }
      k := k + 1;
    }
    if |w| == 0 {
      return false;
    }
    var n := 0;
    while n < |w| - 1
      invariant 0 <= n <= |w| - 1
      invariant forall i :: 0 <= i < n ==> IsEdge(g, w[i], w[i + 1])
    {
      if !IsEdge(g, w[n], w[n + 1]) {
        return false;
      }
      n := n + 1;
    }
    return true;
  }

  /** The set of elements of `s` (Python's `set(path)`). */
  function Elements<T(!new)>(s: seq<T>): (r: set<T>)
    ensures forall x :: x in r <==> x in s
  {
    if s == [] then {} else {s[0]} + Elements(s[1..])
  }

  /** Distinctness of a sequence with a head: the head is new and the tail is distinct. */
  lemma DistinctCons<T(!new)>(s: seq<T>)
    requires s != []
    ensures Distinct(s) <==> s[0] !in s[1..] && Distinct(s[1..])
  {
    if s[0] in s[1..] {
      var j :| 0 <= j < |s[1..]| && s[1..][j] == s[0];
      assert s[j + 1] == s[0];
    }
  }

  /** The elements of `q` that are not in `r`, in order: what removing each of them from a list or dict leaves. */
  function RemoveAll<V(!new)>(q: seq<V>, r: set<V>): (res: seq<V>)
    ensures forall x :: x in res <==> x in q && x !in r
    ensures |res| <= |q|
    ensures forall x :: x in q && x in r ==> |res| < |q|
    ensures Distinct(q) ==> Distinct(res)
  {
    if q == [] then []
    else
      var rest := RemoveAll(q[1..], r);
      if q[0] in r then rest
      else
        DistinctCons(q);
        [q[0]] + rest
  }

  /** `f` lists, in increasing order, the positions of `b` at which the elements of `a` stand. */
  ghost predicate Picks<T>(f: seq<nat>, a: seq<T>, b: seq<T>) {
    && |f| == |a|
    && (forall i :: 0 <= i < |f| ==> f[i] < |b| && a[i] == b[f[i]])
    && (forall i, j :: 0 <= i < j < |f| ==> f[i] < f[j])
  }

  /** `a` is a selection of the elements of `b`, kept in their order in `b`. */
  ghost predicate Subsequence<T>(a: seq<T>, b: seq<T>) {
    exists f :: Picks(f, a, b)
  }

  /** Positions in the tail of `b`, each moved one up, are positions in `b`. */
  lemma PicksShift<T>(f: seq<nat>, a: seq<T>, b: seq<T>) returns (g: seq<nat>)
    requires b != [] && Picks(f, a, b[1..])
    ensures Picks(g, a, b) && (forall i :: 0 <= i < |g| ==> g[i] >= 1)
  {
    g := seq(|f|, i requires 0 <= i < |f| => f[i] + 1);
    forall i | 0 <= i < |g| ensures g[i] < |b| && a[i] == b[g[i]] {
      assert b[g[i]] == b[1..][f[i]];
    }
  }

  /** Picking the head of `b` first, then positions from its tail. */
  lemma PicksCons<T>(g: seq<nat>, a: seq<T>, b: seq<T>)
    requires b != [] && Picks(g, a, b) && (forall i :: 0 <= i < |g| ==> g[i] >= 1)
    ensures Picks([0] + g, [b[0]] + a, b)
  {
    var h := [0] + g;
    forall i, j | 0 <= i < j < |h| ensures h[i] < h[j] {
      if i > 0 {
        assert h[i] == g[i - 1] && h[j] == g[j - 1];
      }
    }
  }

  /** The elements `RemoveAll` keeps stay in their original order. */
  lemma {:induction false} RemoveAllKeepsOrder<V(!new)>(q: seq<V>, r: set<V>)
    ensures Subsequence(RemoveAll(q, r), q)
    decreases |q|
  {
    if q == [] {
      assert Picks([], RemoveAll(q, r), q);
    } else {
      RemoveAllKeepsOrder(q[1..], r);
      var rest := RemoveAll(q[1..], r);
      var f :| Picks(f, rest, q[1..]);
      var g := PicksShift(f, rest, q);
      if q[0] !in r {
        PicksCons(g, rest, q);
        assert RemoveAll(q, r) == [q[0]] + rest;
      } else {
        assert RemoveAll(q, r) == rest;
      }
    }
  }

  /** A sequence has as many distinct elements as it is long exactly when no element repeats. */
  lemma {:induction false} DistinctIffCardinality<T(!new)>(s: seq<T>)
    ensures |Elements(s)| <= |s|
    ensures Distinct(s) <==> |Elements(s)| == |s|
    decreases |s|
  {
    if s != [] {
      DistinctIffCardinality(s[1..]);
      DistinctCons(s);
      var rest := Elements(s[1..]);
      assert Elements(s) == {s[0]} + rest;
      if s[0] in rest {
        assert {s[0]} + rest == rest;
      } else {
        assert |{s[0]} + rest| == |rest| + 1;
      }
    }
  }

  /** `is_path`: a walk whose length equals the size of its element set. */
  function IsPath<V(!new)>(g: Graph<V>, p: seq<V>): (r: bool)
    ensures r <==> Walk(g, p) && Distinct(p)
  {
    DistinctIffCardinality(p);
    Walk(g, p) && |p| == |Elements(p)|
  }
}
