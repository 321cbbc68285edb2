/**
 The two reachability searches of graph.py. Both keep a work list of (vertex, predecessor)
 pairs seeded with (start, start), record each vertex the first time it is taken off the
 list, and then push all of its out-neighbours.

 The source's names are swapped with respect to what the functions do:
 `breadth_first_search` takes from the end of its list (a stack, so it is a depth-first
 search) and `depth_first_search` takes from the front (a queue, so it is a breadth-first
 search and finds minimum-hop predecessor paths). The names below are the source's names.

 Both return the predecessor map together with its keys in insertion order (the
 iteration order of the Python dictionary).
 */
module Search {
  import opened Digraph

  /** `w` is a sequence of vertices from `s` to `t` in which every step is an edge. */
  ghost predicate WalkFromTo<V(!new)>(g: Graph<V>, w: seq<V>, s: V, t: V) {
    && |w| > 0
    && w[0] == s
    && w[|w| - 1] == t
    && (forall i :: 0 <= i < |w| - 1 ==> IsEdge(g, w[i], w[i + 1]))
  }

  /** `t` can be reached from `s` by following edges (in zero or more steps). */
  ghost predicate Reachable<V(!new)>(g: Graph<V>, s: V, t: V) {
    exists w :: WalkFromTo(g, w, s, t)
  }

  /** The work-list entries pushed for the neighbours `ns` of `p`. */
  function Tag<V>(ns: seq<V>, p: V): (r: seq<(V, V)>)
    ensures |r| == |ns|
    ensures forall i :: 0 <= i < |r| ==> r[i] == (ns[i], p)
  {
    seq(|ns|, i requires 0 <= i < |ns| => (ns[i], p))
  }

  /** A walk one step longer than `w`. */
  lemma WalkExtend<V(!new)>(g: Graph<V>, w: seq<V>, s: V, t: V, u: V)
    requires WalkFromTo(g, w, s, t) && IsEdge(g, t, u)
    ensures WalkFromTo(g, w + [u], s, u)
  {
  }

  /** The walk without its last vertex. */
  lemma WalkPrefix<V(!new)>(g: Graph<V>, w: seq<V>, s: V, t: V)
    requires WalkFromTo(g, w, s, t) && |w| > 1
    ensures WalkFromTo(g, w[..|w| - 1], s, w[|w| - 2]) && IsEdge(g, w[|w| - 2], t)
  {
  }

  /** A set containing `s` and closed under edges contains every vertex reachable from `s`. */
  lemma {:induction false} ClosedSetContainsWalks<V(!new)>(g: Graph<V>, s: V, r: set<V>, w: seq<V>, t: V)
    requires s in r
    requires forall x, y :: x in r && IsEdge(g, x, y) ==> y in r
    requires WalkFromTo(g, w, s, t)
    ensures t in r
    decreases |w|
  {
    if |w| > 1 {
      WalkPrefix(g, w, s, t);
      ClosedSetContainsWalks(g, s, r, w[..|w| - 1], w[|w| - 2]);
    }
  }

  /**
   A depth labelling that is 0 at `s` and grows by at most one along every edge is a lower
   bound on the number of steps of every walk from `s`.
   */
  lemma {:induction false} DepthBoundsWalks<V(!new)>(g: Graph<V>, s: V, d: map<V, nat>, w: seq<V>, t: V)
    requires s in d && d[s] == 0
    requires forall x, y :: x in d && IsEdge(g, x, y) ==> y in d && d[y] <= d[x] + 1
    requires WalkFromTo(g, w, s, t)
    ensures t in d && d[t] <= |w| - 1
    decreases |w|
  {
    if |w| > 1 {
      WalkPrefix(g, w, s, t);
      DepthBoundsWalks(g, s, d, w[..|w| - 1], w[|w| - 2]);
    }
  }

  /** Every vertex of a predecessor tree rooted at `s` is reached by the walk along its predecessors. */
  lemma {:induction false} TreeWalk<V(!new)>(g: Graph<V>, s: V, pred: map<V, V>, d: map<V, nat>, u: V)
    requires s in pred && d.Keys == pred.Keys && d[s] == 0
    requires forall x :: x in pred && x != s ==> pred[x] in pred && IsEdge(g, pred[x], x) && d[x] == d[pred[x]] + 1
    requires u in pred
    ensures exists w :: WalkFromTo(g, w, s, u) && |w| == d[u] + 1
    decreases d[u]
  {
    if u == s {
      assert WalkFromTo(g, [s], s, s);
    } else {
      TreeWalk(g, s, pred, d, pred[u]);
      var w :| WalkFromTo(g, w, s, pred[u]) && |w| == d[pred[u]] + 1;
      WalkExtend(g, w, s, pred[u], u);
    }
  }

  /** Taking a fresh element of `a` into `r` shrinks what is left of `a`. */
  lemma ShrinkRemaining<V>(a: set<V>, r: set<V>, n: V)
    requires n in a && n !in r
    ensures |a - (r + {n})| < |a - r|
  {
    assert (a - (r + {n})) + {n} == a - r;
  }

  /** The bookkeeping every search keeps: depths for exactly the reached vertices, and the insertion order. */
  ghost predicate Bookkeeping<V(!new)>(g: Graph<V>, start: V, reached: map<V, V>, order: seq<V>, depth: map<V, nat>, work: seq<(V, V)>) {
    && reached.Keys == depth.Keys
    && Distinct(order) && (forall u :: u in reached <==> u in order)
    && reached.Keys <= g.adj.Keys + {start}
    && (forall i :: 0 <= i < |work| ==> work[i].0 in g.adj.Keys + {start})
    && (reached == map[] ==> work == [(start, start)])
  }

  /** The reached vertices form a predecessor tree rooted at `start`, with `depth` its depths. */
  ghost predicate Tree<V(!new)>(g: Graph<V>, start: V, reached: map<V, V>, depth: map<V, nat>) {
    && (reached != map[] ==> start in reached && reached[start] == start && start in depth && depth[start] == 0)
    && (forall u :: u in reached && u != start ==>
          reached[u] in reached && IsEdge(g, reached[u], u) && u in depth && reached[u] in depth && depth[u] == depth[reached[u]] + 1)
  }

  /** Every pending entry is an edge out of a reached vertex. */
  ghost predicate EntriesAreEdges<V(!new)>(g: Graph<V>, reached: map<V, V>, work: seq<(V, V)>) {
    reached != map[] ==> forall i :: 0 <= i < |work| ==> work[i].1 in reached && IsEdge(g, work[i].1, work[i].0)
  }

  /** `y` is reached or still waiting in the work list. */
  ghost predicate Covered<V(!new)>(reached: map<V, V>, work: seq<(V, V)>, y: V) {
    y in reached || exists i :: 0 <= i < |work| && work[i].0 == y
  }

  /** Every edge out of a reached vertex leads to a reached or pending vertex. */
  ghost predicate Frontier<V(!new)>(g: Graph<V>, reached: map<V, V>, work: seq<(V, V)>) {
    forall x, y :: x in reached && IsEdge(g, x, y) ==> Covered(reached, work, y)
  }

  /** The invariant both searches keep. */
  ghost predicate SearchInv<V(!new)>(g: Graph<V>, start: V, reached: map<V, V>, order: seq<V>, depth: map<V, nat>, work: seq<(V, V)>) {
    && Bookkeeping(g, start, reached, order, depth, work)
    && Tree(g, start, reached, depth)
    && EntriesAreEdges(g, reached, work)
    && Frontier(g, reached, work)
  }

  /** The invariant holds before the first iteration. */
  lemma InitialInv<V(!new)>(g: Graph<V>, start: V)
    ensures SearchInv(g, start, map[], [], map[], [(start, start)])
  {
  }

  /** The depth given to a vertex recorded through the entry `e`. */
  ghost function NewDepth<V>(depth: map<V, nat>, e: (V, V)): nat {
    if e.1 in depth then depth[e.1] + 1 else 0
  }

  /** `rest` is `work` with its entry at position `p` taken out. */
  ghost predicate Without<T>(work: seq<T>, p: int, rest: seq<T>) {
    && 0 <= p < |work|
    && |rest| == |work| - 1
    && (forall i :: 0 <= i < |rest| ==> rest[i] == work[if i < p then i else i + 1])
  }

  /** Every entry other than the one at `p` is still in `rest`. */
  lemma WithoutKeeps<T>(work: seq<T>, p: int, rest: seq<T>, i: int)
    requires Without(work, p, rest) && 0 <= i < |work| && i != p
    ensures rest[if i < p then i else i - 1] == work[i]
  {
  }

  /** Taking an already reached entry out of the work list keeps the invariant. */
  lemma SkipKeeps<V(!new)>(g: Graph<V>, start: V, reached: map<V, V>, order: seq<V>, depth: map<V, nat>,
                           work: seq<(V, V)>, p: int, rest: seq<(V, V)>)
    requires SearchInv(g, start, reached, order, depth, work)
    requires Without(work, p, rest) && work[p].0 in reached
    ensures SearchInv(g, start, reached, order, depth, rest)
  {
    forall x, y | x in reached && IsEdge(g, x, y) ensures Covered(reached, rest, y) {
      if y !in reached {
        assert Covered(reached, work, y);
        var i :| 0 <= i < |work| && work[i].0 == y;
        WithoutKeeps(work, p, rest, i);
      }
    }
  }

  lemma VisitBookkeeping<V(!new)>(g: Graph<V>, start: V, reached: map<V, V>, order: seq<V>, depth: map<V, nat>,
                                  work: seq<(V, V)>, p: int, rest: seq<(V, V)>)
    requires Closed(g)
    requires Bookkeeping(g, start, reached, order, depth, work)
    requires Without(work, p, rest) && work[p].0 !in reached
    ensures var e := work[p];
            Bookkeeping(g, start, reached[e.0 := e.1], order + [e.0], depth[e.0 := NewDepth(depth, e)],
                        rest + Tag(Neighbours(g, e.0), e.0))
  {
    var e := work[p];
    var ns := Neighbours(g, e.0);
    var work' := rest + Tag(ns, e.0);
    forall i | 0 <= i < |work'| ensures work'[i].0 in g.adj.Keys + {start} {
      if i >= |rest| {
        assert work'[i].0 == ns[i - |rest|];
      }
    }
    assert e.0 !in order;
    var order' := order + [e.0];
    forall i, j | 0 <= i < j < |order'| ensures order'[i] != order'[j] {
      if j == |order| {
        assert order[i] in order;
      }
    }
    var reached' := reached[e.0 := e.1];
    assert forall u :: u in reached' <==> u in order';
    assert e.0 in reached';
  }

  lemma VisitTree<V(!new)>(g: Graph<V>, start: V, reached: map<V, V>, order: seq<V>, depth: map<V, nat>,
                           work: seq<(V, V)>, p: int, rest: seq<(V, V)>)
    requires SearchInv(g, start, reached, order, depth, work)
    requires Without(work, p, rest) && work[p].0 !in reached
    ensures var e := work[p];
            Tree(g, start, reached[e.0 := e.1], depth[e.0 := NewDepth(depth, e)])
  {
    var e := work[p];
    if reached == map[] {
      assert e == (start, start);
    }
  }

  lemma VisitEntries<V(!new)>(g: Graph<V>, start: V, reached: map<V, V>, order: seq<V>, depth: map<V, nat>,
                              work: seq<(V, V)>, p: int, rest: seq<(V, V)>)
    requires SearchInv(g, start, reached, order, depth, work)
    requires Without(work, p, rest) && work[p].0 !in reached
    ensures var e := work[p];
            EntriesAreEdges(g, reached[e.0 := e.1], rest + Tag(Neighbours(g, e.0), e.0))
  {
    if reached == map[] {
      assert rest == [];
    }
  }

  lemma VisitFrontier<V(!new)>(g: Graph<V>, start: V, reached: map<V, V>, order: seq<V>, depth: map<V, nat>,
                               work: seq<(V, V)>, p: int, rest: seq<(V, V)>)
    requires SearchInv(g, start, reached, order, depth, work)
    requires Without(work, p, rest) && work[p].0 !in reached
    ensures var e := work[p];
            Frontier(g, reached[e.0 := e.1], rest + Tag(Neighbours(g, e.0), e.0))
  {
    var e := work[p];
    var node := e.0;
    var ns := Neighbours(g, node);
    var reached', work' := reached[node := e.1], rest + Tag(ns, node);
    forall x, y | x in reached' && IsEdge(g, x, y) ensures Covered(reached', work', y) {
      if x == node {
        var k :| 0 <= k < |ns| && ns[k] == y;
        assert work'[|rest| + k].0 == y;
      } else if y !in reached' {
        assert Covered(reached, work, y);
        var i :| 0 <= i < |work| && work[i].0 == y;
        WithoutKeeps(work, p, rest, i);
        assert work'[if i < p then i else i - 1].0 == y;
      }
    }
  }

  /** Recording a new entry and queueing its neighbours keeps the invariant and shrinks the measure. */
  lemma VisitKeeps<V(!new)>(g: Graph<V>, start: V, reached: map<V, V>, order: seq<V>, depth: map<V, nat>,
                            work: seq<(V, V)>, p: int, rest: seq<(V, V)>)
    requires Closed(g)
    requires SearchInv(g, start, reached, order, depth, work)
    requires Without(work, p, rest) && work[p].0 !in reached
    ensures var e := work[p];
            SearchInv(g, start, reached[e.0 := e.1], order + [e.0], depth[e.0 := NewDepth(depth, e)],
                      rest + Tag(Neighbours(g, e.0), e.0))
    ensures var e := work[p];
            |(g.adj.Keys + {start}) - reached[e.0 := e.1].Keys| < |(g.adj.Keys + {start}) - reached.Keys|
  {
    VisitBookkeeping(g, start, reached, order, depth, work, p, rest);
    VisitTree(g, start, reached, order, depth, work, p, rest);
    VisitEntries(g, start, reached, order, depth, work, p, rest);
    VisitFrontier(g, start, reached, order, depth, work, p, rest);
    var e := work[p];
    assert reached[e.0 := e.1].Keys == reached.Keys + {e.0};
    ShrinkRemaining(g.adj.Keys + {start}, reached.Keys, e.0);
  }

  /**
   Once the work list is empty, `start` is mapped to itself, the reached vertices are exactly
   those reachable from `start`, and the predecessors form a tree of edges.
   */
  lemma FinishedSearch<V(!new)>(g: Graph<V>, start: V, reached: map<V, V>, order: seq<V>, depth: map<V, nat>, work: seq<(V, V)>)
    requires SearchInv(g, start, reached, order, depth, work)
    requires work == []
    ensures start in reached && reached[start] == start
    ensures forall u :: u in reached && u != start ==> reached[u] in reached && IsEdge(g, reached[u], u)
    ensures forall u :: u in reached <==> Reachable(g, start, u)
    ensures Distinct(order) && forall u :: u in reached <==> u in order
    ensures depth.Keys == reached.Keys && depth[start] == 0
    ensures forall u :: u in reached && u != start ==> depth[u] == depth[reached[u]] + 1
  {
    assert reached != map[];
    forall u | Reachable(g, start, u) ensures u in reached {
      var w :| WalkFromTo(g, w, start, u);
      ClosedSetContainsWalks(g, start, reached.Keys, w, u);
    }
    forall u | u in reached ensures Reachable(g, start, u) {
      TreeWalk(g, start, reached, depth, u);
    }
  }

  /** Popping the last entry of the stack takes out its entry at the last position. */
  lemma StackPop<T>(stack: seq<T>)
    requires |stack| > 0
    ensures Without(stack, |stack| - 1, stack[..|stack| - 1])
  {
  }

  /**
   `breadth_first_search` of graph.py (a stack discipline despite its name): the result maps
   `start` to itself and every other vertex reachable from `start` to a predecessor from
   which an edge leads to it; its keys are exactly the vertices reachable from `start`.
   `depth` is the depth of each vertex in the predecessor tree.
   */
  method BreadthFirstSearch<V(!new)>(g: Graph<V>, start: V) returns (reached: map<V, V>, order: seq<V>, ghost depth: map<V, nat>)
    requires Closed(g)
    ensures start in reached && reached[start] == start
    ensures forall u :: u in reached && u != start ==> reached[u] in reached && IsEdge(g, reached[u], u)
    ensures forall u :: u in reached <==> Reachable(g, start, u)
    ensures Distinct(order) && forall u :: u in reached <==> u in order
    ensures depth.Keys == reached.Keys && depth[start] == 0
    ensures forall u :: u in reached && u != start ==> depth[u] == depth[reached[u]] + 1
  {
    reached := map[];
    order := [];
    depth := map[];
    var stack := [(start, start)];
    InitialInv(g, start);
    while |stack| > 0
      invariant SearchInv(g, start, reached, order, depth, stack)
      decreases |(g.adj.Keys + {start}) - reached.Keys|, |stack|
    {
      var p := |stack| - 1;
      var (node, prev) := stack[p];
      var rest := stack[..p];
      StackPop(stack);
      if node in reached {
        SkipKeeps(g, start, reached, order, depth, stack, p, rest);
        stack := rest;
      } else {
        VisitKeeps(g, start, reached, order, depth, stack, p, rest);
        depth := depth[node := NewDepth(depth, (node, prev))];
        reached := reached[node := prev];
        order := order + [node];
        stack := rest + Tag(Neighbours(g, node), node);
      }
    }
    FinishedSearch(g, start, reached, order, depth, stack);
  }

  /** The entry `e` would give its vertex a depth of at most one more than that of `x`. */
  ghost predicate Near<V(!new)>(reached: map<V, V>, depth: map<V, nat>, work: seq<(V, V)>, x: V, y: V)
    requires x in depth
  {
    || (y in reached && y in depth && depth[y] <= depth[x] + 1)
    || (exists i :: 0 <= i < |work| && work[i].0 == y && NewDepth(depth, work[i]) <= depth[x] + 1)
  }

  /**
   What a queue adds to the invariant: the depths its entries would give are sorted and span
   at most two consecutive values, no reached vertex is deeper than any of them, and every
   edge out of a reached vertex `x` leads to a vertex that is, or will be, at depth at most
   one more than `x`.
   */
  ghost predicate Levels<V(!new)>(g: Graph<V>, reached: map<V, V>, depth: map<V, nat>, queue: seq<(V, V)>) {
    reached != map[] ==> LevelsSorted(depth, queue) && LevelsNear(g, reached, depth, queue)
  }

  ghost predicate LevelsSorted<V(!new)>(depth: map<V, nat>, queue: seq<(V, V)>) {
    && (forall i, j :: 0 <= i <= j < |queue| ==>
          NewDepth(depth, queue[i]) <= NewDepth(depth, queue[j]) <= NewDepth(depth, queue[i]) + 1)
    && (forall u, i :: u in depth && 0 <= i < |queue| ==> depth[u] <= NewDepth(depth, queue[i]))
  }

  ghost predicate LevelsNear<V(!new)>(g: Graph<V>, reached: map<V, V>, depth: map<V, nat>, queue: seq<(V, V)>) {
    forall x, y :: x in reached && IsEdge(g, x, y) ==> x in depth && Near(reached, depth, queue, x, y)
  }

  /** The loop invariant of the queue search. */
  ghost predicate QueueInv<V(!new)>(g: Graph<V>, start: V, reached: map<V, V>, order: seq<V>, depth: map<V, nat>, queue: seq<(V, V)>) {
    SearchInv(g, start, reached, order, depth, queue) && Levels(g, reached, depth, queue)
  }

  lemma QueueSkipLevels<V(!new)>(g: Graph<V>, reached: map<V, V>, depth: map<V, nat>, queue: seq<(V, V)>)
    requires LevelsSorted(depth, queue) && LevelsNear(g, reached, depth, queue)
    requires reached.Keys == depth.Keys
    requires |queue| > 0 && queue[0].0 in reached
    ensures LevelsSorted(depth, queue[1..]) && LevelsNear(g, reached, depth, queue[1..])
  {
    var rest := queue[1..];
    forall x, y | x in reached && IsEdge(g, x, y) ensures x in depth && Near(reached, depth, rest, x, y) {
      assert Near(reached, depth, queue, x, y);
      if !(y in reached && y in depth && depth[y] <= depth[x] + 1) {
        var i :| 0 <= i < |queue| && queue[i].0 == y && NewDepth(depth, queue[i]) <= depth[x] + 1;
        assert i != 0;
        assert rest[i - 1] == queue[i];
      }
    }
  }

  /** The queue after taking its first entry and queueing that vertex's neighbours. */
  function Requeue<V(!new)>(g: Graph<V>, queue: seq<(V, V)>): seq<(V, V)>
    requires |queue| > 0
  {
    queue[1..] + Tag(Neighbours(g, queue[0].0), queue[0].0)
  }

  /** Entries already queued keep the depth they would give; the new ones give one more than the recorded vertex. */
  lemma RequeueDepths<V(!new)>(g: Graph<V>, start: V, reached: map<V, V>, depth: map<V, nat>, queue: seq<(V, V)>)
    requires EntriesAreEdges(g, reached, queue)
    requires reached.Keys == depth.Keys && (reached == map[] ==> queue == [(start, start)])
    requires |queue| > 0 && queue[0].0 !in reached
    ensures var lvl := NewDepth(depth, queue[0]);
            var depth', queue' := depth[queue[0].0 := lvl], Requeue(g, queue);
            forall i :: 0 <= i < |queue'| ==>
              NewDepth(depth', queue'[i]) == if i < |queue| - 1 then NewDepth(depth, queue[i + 1]) else lvl + 1
  {
    var node := queue[0].0;
    var lvl := NewDepth(depth, queue[0]);
    var depth', queue' := depth[node := lvl], Requeue(g, queue);
    if reached == map[] {
      assert queue == [(start, start)];
    }
    forall i | 0 <= i < |queue'|
      ensures NewDepth(depth', queue'[i]) == if i < |queue| - 1 then NewDepth(depth, queue[i + 1]) else lvl + 1
    {
      if i < |queue| - 1 {
        assert queue'[i] == queue[i + 1];
        assert queue[i + 1].1 in reached;
      } else {
        assert queue'[i].1 == node;
      }
    }
  }

  lemma RequeueSorted<V(!new)>(g: Graph<V>, start: V, reached: map<V, V>, depth: map<V, nat>, queue: seq<(V, V)>)
    requires reached != map[] ==> LevelsSorted(depth, queue)
    requires EntriesAreEdges(g, reached, queue)
    requires reached.Keys == depth.Keys && (reached == map[] ==> queue == [(start, start)])
    requires |queue| > 0 && queue[0].0 !in reached
    ensures var lvl := NewDepth(depth, queue[0]);
            var depth', queue' := depth[queue[0].0 := lvl], Requeue(g, queue);
            && (forall i, j :: 0 <= i <= j < |queue'| ==>
                  NewDepth(depth', queue'[i]) <= NewDepth(depth', queue'[j]) <= NewDepth(depth', queue'[i]) + 1)
            && (forall u, i :: u in depth' && 0 <= i < |queue'| ==> depth'[u] <= NewDepth(depth', queue'[i]))
  {
    RequeueDepths(g, start, reached, depth, queue);
    var lvl := NewDepth(depth, queue[0]);
    var depth', queue' := depth[queue[0].0 := lvl], Requeue(g, queue);
    if reached == map[] {
      assert queue == [(start, start)];
    } else {
      forall k | 1 <= k < |queue| ensures lvl <= NewDepth(depth, queue[k]) <= lvl + 1 {
        assert 0 <= 0 <= k < |queue|;
      }
    }
  }

  /** An edge out of the vertex just recorded leads to a vertex now queued one level deeper. */
  lemma RequeueNearNew<V(!new)>(g: Graph<V>, start: V, reached: map<V, V>, depth: map<V, nat>, queue: seq<(V, V)>, y: V)
    requires EntriesAreEdges(g, reached, queue)
    requires reached.Keys == depth.Keys && (reached == map[] ==> queue == [(start, start)])
    requires |queue| > 0 && queue[0].0 !in reached && IsEdge(g, queue[0].0, y)
    ensures var node := queue[0].0;
            var depth' := depth[node := NewDepth(depth, queue[0])];
            Near(reached[node := queue[0].1], depth', Requeue(g, queue), node, y)
  {
    RequeueDepths(g, start, reached, depth, queue);
    var node := queue[0].0;
    var ns := Neighbours(g, node);
    var queue' := Requeue(g, queue);
    var k :| 0 <= k < |ns| && ns[k] == y;
    assert queue'[|queue| - 1 + k].0 == y;
  }

  /** An edge out of a vertex recorded earlier still leads to a vertex at most one level deeper, recorded or queued. */
  lemma RequeueNearOld<V(!new)>(g: Graph<V>, start: V, reached: map<V, V>, depth: map<V, nat>, queue: seq<(V, V)>, x: V, y: V)
    requires EntriesAreEdges(g, reached, queue)
    requires reached.Keys == depth.Keys && (reached == map[] ==> queue == [(start, start)])
    requires |queue| > 0 && queue[0].0 !in reached
    requires x in reached && x in depth && Near(reached, depth, queue, x, y)
    ensures var node := queue[0].0;
            var depth' := depth[node := NewDepth(depth, queue[0])];
            x in depth' && Near(reached[node := queue[0].1], depth', Requeue(g, queue), x, y)
  {
    RequeueDepths(g, start, reached, depth, queue);
    var node := queue[0].0;
    var lvl := NewDepth(depth, queue[0]);
    var depth', queue' := depth[node := lvl], Requeue(g, queue);
    assert depth'[x] == depth[x];
    if !(y in reached && y in depth && depth[y] <= depth[x] + 1) {
      var i :| 0 <= i < |queue| && queue[i].0 == y && NewDepth(depth, queue[i]) <= depth[x] + 1;
      if i == 0 {
        assert y == node && depth'[y] == lvl;
      } else {
        assert queue'[i - 1].0 == y;
      }
    }
  }

  lemma RequeueNear<V(!new)>(g: Graph<V>, start: V, reached: map<V, V>, depth: map<V, nat>, queue: seq<(V, V)>)
    requires reached != map[] ==> LevelsNear(g, reached, depth, queue)
    requires EntriesAreEdges(g, reached, queue)
    requires reached.Keys == depth.Keys && (reached == map[] ==> queue == [(start, start)])
    requires |queue| > 0 && queue[0].0 !in reached
    ensures var (node, prev) := queue[0];
            var reached', depth' := reached[node := prev], depth[node := NewDepth(depth, queue[0])];
            forall x, y :: x in reached' && IsEdge(g, x, y) ==> x in depth' && Near(reached', depth', Requeue(g, queue), x, y)
  {
    var node := queue[0].0;
    var reached' := reached[node := queue[0].1];
    forall x, y | x in reached' && IsEdge(g, x, y)
      ensures x in depth[node := NewDepth(depth, queue[0])] && Near(reached', depth[node := NewDepth(depth, queue[0])], Requeue(g, queue), x, y)
    {
      if x == node {
        RequeueNearNew(g, start, reached, depth, queue, y);
      } else {
        assert Near(reached, depth, queue, x, y);
        RequeueNearOld(g, start, reached, depth, queue, x, y);
      }
    }
  }

  lemma QueueVisitLevels<V(!new)>(g: Graph<V>, start: V, reached: map<V, V>, order: seq<V>, depth: map<V, nat>, queue: seq<(V, V)>)
    requires Closed(g)
    requires QueueInv(g, start, reached, order, depth, queue)
    requires |queue| > 0 && queue[0].0 !in reached
    ensures var (node, prev) := queue[0];
            Levels(g, reached[node := prev], depth[node := NewDepth(depth, queue[0])], Requeue(g, queue))
  {
    RequeueSorted(g, start, reached, depth, queue);
    RequeueNear(g, start, reached, depth, queue);
  }

  /** Taking the first entry of the queue takes out its entry at position zero. */
  lemma QueuePop<T>(queue: seq<T>)
    requires |queue| > 0
    ensures Without(queue, 0, queue[1..])
  {
  }

  /** With the queue empty, the depths are the minimum number of steps from `start`. */
  lemma FinishedQueue<V(!new)>(g: Graph<V>, start: V, reached: map<V, V>, order: seq<V>, depth: map<V, nat>, queue: seq<(V, V)>)
    requires QueueInv(g, start, reached, order, depth, queue)
    requires queue == []
    ensures forall w, u :: WalkFromTo(g, w, start, u) ==> u in depth && depth[u] <= |w| - 1
  {
    FinishedSearch(g, start, reached, order, depth, queue);
    forall x, y | x in depth && IsEdge(g, x, y) ensures y in depth && depth[y] <= depth[x] + 1 {
      assert Near(reached, depth, queue, x, y);
    }
    forall w, u | WalkFromTo(g, w, start, u) ensures u in depth && depth[u] <= |w| - 1 {
      DepthBoundsWalks(g, start, depth, w, u);
    }
  }

  /**
   `depth_first_search` of graph.py (a queue discipline despite its name): everything
   `BreadthFirstSearch` promises, and in addition the predecessor tree is a minimum-hop
   tree: no walk from `start` to `u` has fewer steps than the depth of `u` in the tree.
   */
  method DepthFirstSearch<V(!new)>(g: Graph<V>, start: V) returns (reached: map<V, V>, order: seq<V>, ghost depth: map<V, nat>)
    requires Closed(g)
    ensures start in reached && reached[start] == start
    ensures forall u :: u in reached && u != start ==> reached[u] in reached && IsEdge(g, reached[u], u)
    ensures forall u :: u in reached <==> Reachable(g, start, u)
    ensures Distinct(order) && forall u :: u in reached <==> u in order
    ensures depth.Keys == reached.Keys && depth[start] == 0
    ensures forall u :: u in reached && u != start ==> depth[u] == depth[reached[u]] + 1
    ensures forall w, u :: WalkFromTo(g, w, start, u) ==> u in depth && depth[u] <= |w| - 1
  {
    reached := map[];
    order := [];
    depth := map[];
    var queue := [(start, start)];
    InitialInv(g, start);
    while |queue| > 0
      invariant QueueInv(g, start, reached, order, depth, queue)
      decreases |(g.adj.Keys + {start}) - reached.Keys|, |queue|
    {
      var (node, prev) := queue[0];
      var rest := queue[1..];
      QueuePop(queue);
      if node in reached {
        SkipKeeps(g, start, reached, order, depth, queue, 0, rest);
        QueueSkipLevels(g, reached, depth, queue);
        queue := rest;
      } else {
        VisitKeeps(g, start, reached, order, depth, queue, 0, rest);
        QueueVisitLevels(g, start, reached, order, depth, queue);
        depth := depth[node := NewDepth(depth, (node, prev))];
        reached := reached[node := prev];
        order := order + [node];
        queue := rest + Tag(Neighbours(g, node), node);
      }
    }
    FinishedSearch(g, start, reached, order, depth, queue);
    FinishedQueue(g, start, reached, order, depth, queue);
  }
}
