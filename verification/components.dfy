/**
 `count_components` of graph.py: repeatedly take the first vertex still in the pool, search
 from it with the queue search, strike every vertex it reached from the pool and count one
 component. The count is only meaningful when every edge has its reverse edge, so that
 reachability is an equivalence relation on the vertices.
 */
module Components {
  import opened Digraph
  import opened Search

  /** Every edge has its reverse edge: the graph encodes an undirected relation. */
  ghost predicate Symmetric<V(!new)>(g: Graph<V>) {
    forall u, v :: IsEdge(g, u, v) ==> IsEdge(g, v, u)
  }

  /** The vertices reachable from `v`. */
  ghost function ComponentOf<V(!new)>(g: Graph<V>, v: V): set<V> {
    set u | u in g.adj.Keys && Reachable(g, v, u)
  }

  /** The connected components: one set per vertex, equal sets counted once. */
  ghost function ComponentSet<V(!new)>(g: Graph<V>): set<set<V>> {
    set v | v in g.adj.Keys :: ComponentOf(g, v)
  }

  /** Joining a walk from `a` to `b` and one from `b` to `c`. */
  lemma {:induction false} ReachableTransitive<V(!new)>(g: Graph<V>, a: V, b: V, c: V)
    requires Reachable(g, a, b) && Reachable(g, b, c)
    ensures Reachable(g, a, c)
  {
    var w1 :| WalkFromTo(g, w1, a, b);
    var w2 :| WalkFromTo(g, w2, b, c);
    var w := w1 + w2[1..];
    forall i | 0 <= i < |w| - 1 ensures IsEdge(g, w[i], w[i + 1]) {
      if i < |w1| - 1 {
        assert w[i] == w1[i] && w[i + 1] == w1[i + 1];
      } else {
        var k := i - |w1| + 1;
        assert w[i] == w2[k] && w[i + 1] == w2[k + 1];
      }
    }
    assert WalkFromTo(g, w, a, c);
  }

  /** The reversed walk, which exists when every edge has its reverse. */
  lemma {:induction false} ReachableSymmetric<V(!new)>(g: Graph<V>, a: V, b: V)
    requires Symmetric(g) && Reachable(g, a, b)
    ensures Reachable(g, b, a)
  {
    var w :| WalkFromTo(g, w, a, b);
    var r := seq(|w|, i requires 0 <= i < |w| => w[|w| - 1 - i]);
    forall i | 0 <= i < |r| - 1 ensures IsEdge(g, r[i], r[i + 1]) {
      var k := |w| - 2 - i;
      assert IsEdge(g, w[k], w[k + 1]);
    }
    assert WalkFromTo(g, r, b, a);
  }

  /** In a symmetric graph two vertices have the same component when one reaches the other. */
  lemma SameComponent<V(!new)>(g: Graph<V>, a: V, b: V)
    requires Symmetric(g) && Reachable(g, a, b)
    ensures ComponentOf(g, a) == ComponentOf(g, b)
  {
    ReachableSymmetric(g, a, b);
    forall u | u in ComponentOf(g, b) ensures u in ComponentOf(g, a) {
      ReachableTransitive(g, a, b, u);
    }
    forall u | u in ComponentOf(g, a) ensures u in ComponentOf(g, b) {
      ReachableTransitive(g, b, a, u);
    }
  }

  /** A vertex is in its own component. */
  lemma InOwnComponent<V(!new)>(g: Graph<V>, v: V)
    requires v in g.adj
    ensures v in ComponentOf(g, v)
  {
    assert WalkFromTo(g, [v], v, v);
  }

  /** Only vertices are reached from a vertex. */
  lemma ReachedAreVertices<V(!new)>(g: Graph<V>, s: V, u: V)
    requires Closed(g) && s in g.adj && Reachable(g, s, u)
    ensures u in g.adj
  {
    var w :| WalkFromTo(g, w, s, u);
    if |w| > 1 {
      assert IsEdge(g, w[|w| - 2], w[|w| - 1]);
    }
  }

  /** `v` lies in none of the components of `done`. */
  ghost predicate Uncovered<V(!new)>(done: set<set<V>>, v: V) {
    forall c :: c in done ==> v !in c
  }

  /** The invariant of the counting loop for a symmetric graph. */
  ghost predicate CountInv<V(!new)>(g: Graph<V>, done: set<set<V>>, queue: seq<V>) {
    && done <= ComponentSet(g)
    && (forall v :: v in g.adj ==> (v in queue <==> Uncovered(done, v)))
    && (forall c :: c in ComponentSet(g) ==> c in done || exists v :: v in queue && c == ComponentOf(g, v))
  }

  /** Counting the component of `s` and striking it from the pool keeps the invariant. */
  lemma CountStep<V(!new)>(g: Graph<V>, done: set<set<V>>, queue: seq<V>, comp: set<V>)
    requires Valid(g) && Symmetric(g)
    requires CountInv(g, done, queue) && (forall v :: v in queue ==> v in g.adj)
    requires |queue| > 0 && comp == ComponentOf(g, queue[0])
    ensures comp !in done
    ensures CountInv(g, done + {comp}, RemoveAll(queue[1..], comp))
  {
    var s := queue[0];
    var done', queue' := done + {comp}, RemoveAll(queue[1..], comp);
    InOwnComponent(g, s);
    assert Uncovered(done, s);
    assert comp in ComponentSet(g);
    forall v | v in g.adj ensures v in queue' <==> Uncovered(done', v) {
      if Uncovered(done', v) {
        assert v in queue && v != s;
        assert v in queue[1..];
      }
    }
    forall c | c in ComponentSet(g) ensures c in done' || exists v :: v in queue' && c == ComponentOf(g, v) {
      if c !in done' {
        var v :| v in queue && c == ComponentOf(g, v);
        if v !in queue' && v != s {
          assert v in queue[1..] && v in comp;
          SameComponent(g, s, v);
        }
      }
    }
  }

  /** One iteration of the counting loop, stated for the loop's own invariant. */
  lemma CountLoopStep<V(!new)>(g: Graph<V>, done: set<set<V>>, queue: seq<V>, comp: set<V>, count: nat)
    requires Valid(g) && (forall v :: v in queue ==> v in g.adj)
    requires Symmetric(g) ==> CountInv(g, done, queue) && count == |done|
    requires |queue| > 0 && comp == ComponentOf(g, queue[0])
    ensures Symmetric(g) ==> CountInv(g, done + {comp}, RemoveAll(queue[1..], comp)) && count + 1 == |done + {comp}|
  {
    if Symmetric(g) {
      CountStep(g, done, queue, comp);
      AddNew(done, comp);
    }
  }

  /** Adding an element not yet present grows a set by one. */
  lemma AddNew<T>(s: set<T>, x: T)
    requires x !in s
    ensures |s + {x}| == |s| + 1
  {
  }

  /** Before the first iteration every vertex is in the pool and no component is counted. */
  lemma InitialCount<V(!new)>(g: Graph<V>)
    requires Valid(g)
    ensures |g.order| == |g.adj|
    ensures Symmetric(g) ==> CountInv(g, {}, g.order)
  {
    DistinctIffCardinality(g.order);
    assert Elements(g.order) == g.adj.Keys;
  }

  /** The vertices the queue search from `start` reaches: the component of `start`. */
  method SearchComponent<V(!new)>(g: Graph<V>, start: V) returns (comp: set<V>)
    requires Closed(g) && start in g.adj
    ensures comp == ComponentOf(g, start)
  {
    var reached, _, _ := DepthFirstSearch(g, start);
    comp := reached.Keys;
    forall u | u in reached ensures u in ComponentOf(g, start) {
      ReachedAreVertices(g, start, u);
    }
  }

  /** With the pool empty, the counted components are all the components. */
  lemma FinalCount<V(!new)>(g: Graph<V>, done: set<set<V>>)
    requires CountInv(g, done, [])
    ensures done == ComponentSet(g)
  {
  }

  /**
   `count_components`. For a graph in which every edge has its reverse edge the result is
   the number of connected components; for any graph it is at most the number of vertices.
   */
  method CountComponents<V(!new)>(g: Graph<V>) returns (count: nat)
    requires Valid(g)
    ensures count <= |g.adj|
    ensures Symmetric(g) ==> count == |ComponentSet(g)|
  {
    count := 0;
    var queue := g.order;
    ghost var done: set<set<V>> := {};
    InitialCount(g);
    while |queue| > 0
      invariant Distinct(queue) && forall v :: v in queue ==> v in g.adj
      invariant count + |queue| <= |g.adj|
      invariant Symmetric(g) ==> CountInv(g, done, queue) && count == |done|
      decreases |queue|
    {
      var comp := SearchComponent(g, queue[0]);
      CountLoopStep(g, done, queue, comp, count);
      done := done + {comp};
      queue := RemoveAll(queue[1..], comp);
      count := count + 1;
    }
    if Symmetric(g) {
      FinalCount(g, done);
    }
  }
}
