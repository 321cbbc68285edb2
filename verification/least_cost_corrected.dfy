/**
 What `least_cost_path` of server_new.py sets out to compute, with the two defects of the
 version in `LeastCost` repaired. Its rounds matched arrivals against the cost of the vertex
 popped just before, which need not be the predecessor. Its backtracking also looked for
 arrivals among the out-neighbours of the current vertex, so the path it rebuilt had to use
 reversed edges. This version keeps the search of the component, the cost table and the
 choice of the cheapest unsettled vertex. It records a predecessor whenever a relaxation
 lowers a cost, stops as soon as the destination is settled, and follows the predecessors
 back to `start`.

 The result is a walk along the edges from `start` to `dest` whose total cost no other such
 walk undercuts.
 */
module LeastCostCorrected {
  import opened Digraph
  import opened Search
  import opened LeastCost

  /** The total edge cost of a walk: the sum of `cost(w[i], w[i + 1])` over its steps. */
  function WalkCost<V>(cost: (V, V) -> nat, w: seq<V>): nat
    decreases |w|
  {
    if |w| < 2 then 0 else cost(w[0], w[1]) + WalkCost(cost, w[1..])
  }

  /** Cutting a walk at position `j` splits its cost between the part up to `j` and the part from `j`. */
  lemma {:induction false} WalkCostSplit<V>(cost: (V, V) -> nat, w: seq<V>, j: nat)
    requires j < |w|
    ensures WalkCost(cost, w) == WalkCost(cost, w[..j + 1]) + WalkCost(cost, w[j..])
    decreases j
  {
    if j > 0 {
      WalkCostSplit(cost, w[1..], j - 1);
      assert w[1..][..j] == w[1..j + 1] && w[1..][j - 1..] == w[j..];
      assert w[..j + 1][1..] == w[1..j + 1];
    }
  }

  /** No walk from `start` to `x` costs less than `n`. */
  ghost predicate Cheapest<V(!new)>(g: Graph<V>, cost: (V, V) -> nat, start: V, x: V, n: nat) {
    forall w :: WalkFromTo(g, w, start, x) ==> n <= WalkCost(cost, w)
  }

  /** A walk whose first element is in `s` and whose last is not leaves `s` along some step. */
  lemma {:induction false} Crossing<V>(w: seq<V>, s: set<V>) returns (j: nat)
    requires |w| > 0 && w[0] in s && w[|w| - 1] !in s
    ensures 1 <= j < |w| && w[j - 1] in s && w[j] !in s
    decreases |w|
  {
    if w[1] !in s {
      j := 1;
    } else {
      var k := Crossing(w[1..], s);
      j := k + 1;
    }
  }

  /** The first `j + 1` elements of a walk form a walk to its `j`-th element. */
  lemma WalkTake<V(!new)>(g: Graph<V>, w: seq<V>, s: V, t: V, j: nat)
    requires WalkFromTo(g, w, s, t) && j < |w|
    ensures WalkFromTo(g, w[..j + 1], s, w[j])
  {
    var p := w[..j + 1];
    forall i | 0 <= i < |p| - 1 ensures IsEdge(g, p[i], p[i + 1]) {
      assert p[i] == w[i] && p[i + 1] == w[i + 1];
    }
  }

  /** The vertices reachable from `start`: the component the search returns. */
  ghost predicate Component<V(!new)>(g: Graph<V>, start: V, comp: set<V>) {
    forall u :: u in comp <==> Reachable(g, start, u)
  }

  /** An out-neighbour of a vertex of the component is in the component. */
  lemma ComponentClosed<V(!new)>(g: Graph<V>, start: V, comp: set<V>, u: V, y: V)
    requires Component(g, start, comp) && u in comp && IsEdge(g, u, y)
    ensures y in comp
  {
    var w :| WalkFromTo(g, w, start, u);
    WalkExtend(g, w, start, u, y);
  }

  /**
   The cost table covers the component, whose vertices are either unsettled (in `keys`,
   each once) or settled.
   */
  ghost predicate Table<V(!new)>(comp: set<V>, d: map<V, Cost>, keys: seq<V>, settled: set<V>) {
    && Distinct(keys)
    && (forall x :: x in d <==> x in comp)
    && (forall x :: x in comp <==> x in keys || x in settled)
    && (forall x :: x in keys ==> x !in settled)
  }

  /** `start` costs zero and has no predecessor; every other vertex of finite cost has one. */
  ghost predicate Rooted<V(!new)>(start: V, d: map<V, Cost>, pred: map<V, V>) {
    && start in d && d[start] == Fin(0) && start !in pred
    && (forall x :: x in d && x != start && d[x].Fin? ==> x in pred)
  }

  /**
   A predecessor is settled, has a finite cost and an edge to the vertex, and that edge
   accounts for the vertex's cost exactly.
   */
  ghost predicate PredEdges<V(!new)>(g: Graph<V>, cost: (V, V) -> nat, d: map<V, Cost>, settled: set<V>, pred: map<V, V>) {
    forall x :: x in pred ==>
      && x in d && pred[x] in settled && pred[x] in d && d[pred[x]].Fin? && IsEdge(g, pred[x], x)
      && d[x] == Fin(d[pred[x]].n + cost(pred[x], x))
  }

  /** Settled vertices are ranked below `count` in the order they were settled, and a predecessor was settled first. */
  ghost predicate Ranked<V(!new)>(settled: set<V>, pred: map<V, V>, rank: map<V, nat>, count: nat) {
    && (forall x :: x in settled ==> x in rank && rank[x] < count)
    && (forall x :: x in pred && x in settled ==> pred[x] in rank && rank[pred[x]] < rank[x])
  }

  /** The predecessor tree. */
  ghost predicate Tree<V(!new)>(g: Graph<V>, cost: (V, V) -> nat, start: V, d: map<V, Cost>, settled: set<V>,
                                pred: map<V, V>, rank: map<V, nat>, count: nat) {
    Rooted(start, d, pred) && PredEdges(g, cost, d, settled, pred) && Ranked(settled, pred, rank, count)
  }

  /** Every edge out of a settled vertex to an unsettled one has been relaxed. */
  ghost predicate Relaxed<V(!new)>(g: Graph<V>, cost: (V, V) -> nat, d: map<V, Cost>, settled: set<V>) {
    forall u, y :: u in settled && IsEdge(g, u, y) && y !in settled ==>
      u in d && y in d && !Less(Plus(d[u], Fin(cost(u, y))), d[y])
  }

  /** A settled vertex has a finite cost that no walk from `start` undercuts. */
  ghost predicate Settled<V(!new)>(g: Graph<V>, cost: (V, V) -> nat, start: V, d: map<V, Cost>, settled: set<V>) {
    forall x :: x in settled ==> x in d && d[x].Fin? && Cheapest(g, cost, start, x, d[x].n)
  }

  /** A walk costs at least its part up to position `j - 1` plus the step from `j - 1` to `j`. */
  lemma StepCost<V>(cost: (V, V) -> nat, w: seq<V>, j: nat)
    requires 1 <= j < |w|
    ensures WalkCost(cost, w) >= WalkCost(cost, w[..j]) + cost(w[j - 1], w[j])
  {
    WalkCostSplit(cost, w, j);
    WalkCostSplit(cost, w[..j + 1], j - 1);
    assert w[..j + 1][..j] == w[..j];
    assert w[..j + 1][j - 1..] == [w[j - 1], w[j]];
  }

  /**
   A walk from the settled `start` to an unsettled vertex leaves the settled set along some
   edge `a -> b`. The part up to `a` costs at least the settled cost of `a`, and the edge
   was relaxed. So the walk costs at least the cost of `b`, which is at least the cost of
   the cheapest key `m`.
   */
  lemma WalkBound<V(!new)>(g: Graph<V>, cost: (V, V) -> nat, start: V, comp: set<V>, d: map<V, Cost>,
                           keys: seq<V>, settled: set<V>, m: V, w: seq<V>)
    requires Component(g, start, comp) && Table(comp, d, keys, settled)
    requires Relaxed(g, cost, d, settled) && Settled(g, cost, start, d, settled) && start in settled
    requires m in keys && (forall x :: x in keys ==> !Less(d[x], d[m])) && WalkFromTo(g, w, start, m)
    ensures d[m].Fin? && d[m].n <= WalkCost(cost, w)
  {
    var j := Crossing(w, settled);
    var a, b := w[j - 1], w[j];
    WalkTake(g, w, start, m, j - 1);
    WalkTake(g, w, start, m, j);
    assert Reachable(g, start, b);
    assert b in keys;
    StepCost(cost, w, j);
  }

  /** The cheapest unsettled vertex `m` of the component has a finite cost that no walk from `start` undercuts. */
  lemma CheapestKey<V(!new)>(g: Graph<V>, cost: (V, V) -> nat, start: V, comp: set<V>, d: map<V, Cost>,
                             keys: seq<V>, settled: set<V>, pred: map<V, V>, rank: map<V, nat>, count: nat, m: V)
    requires Component(g, start, comp) && Table(comp, d, keys, settled)
    requires Tree(g, cost, start, d, settled, pred, rank, count)
    requires Relaxed(g, cost, d, settled) && Settled(g, cost, start, d, settled)
    requires m in keys && forall x :: x in keys ==> !Less(d[x], d[m])
    ensures d[m].Fin? && Cheapest(g, cost, start, m, d[m].n)
  {
    if start !in settled {
      assert !Less(d[start], d[m]);
    } else {
      var w0 :| WalkFromTo(g, w0, start, m);
      WalkBound(g, cost, start, comp, d, keys, settled, m, w0);
      forall w | WalkFromTo(g, w, start, m) ensures d[m].n <= WalkCost(cost, w) {
        WalkBound(g, cost, start, comp, d, keys, settled, m, w);
      }
    }
  }

  /** Settling `m`, with its rank the next number, keeps the predecessor tree. */
  lemma SettleTree<V(!new)>(g: Graph<V>, cost: (V, V) -> nat, start: V, d: map<V, Cost>, settled: set<V>,
                            pred: map<V, V>, rank: map<V, nat>, count: nat, m: V)
    requires Tree(g, cost, start, d, settled, pred, rank, count) && m !in settled
    ensures Tree(g, cost, start, d, settled + {m}, pred, rank[m := count], count + 1)
  {
  }

  /**
   What relaxing the out-neighbours `ns` of the settled vertex `u` does to the cost table `d`
   and the predecessors `pred`, giving `d'` and `pred'`. Costs only go down, and only for
   unsettled vertices of `ns`. A lowered cost, and a new predecessor entry, is the cost
   through `u` with `u` as predecessor. Afterwards no vertex of `ns` is cheaper through `u`
   than its cost.
   */
  ghost predicate Lowered<V(!new)>(d: map<V, Cost>, pred: map<V, V>, ns: seq<V>, settled: set<V>, u: V, cost: (V, V) -> nat,
                                   d': map<V, Cost>, pred': map<V, V>)
    requires u in d && d[u].Fin?
  {
    && d'.Keys == d.Keys && pred.Keys <= pred'.Keys
    && (forall x :: x in d ==> !Less(d[x], d'[x]))
    && (forall x :: x in d && (x in settled || x !in ns) ==> d'[x] == d[x])
    && (forall x :: x in d && d'[x] != d[x] ==> x in pred' && pred'[x] == u)
    && (forall x :: x in pred' ==>
          || (x in pred && pred'[x] == pred[x] && x in d && d'[x] == d[x])
          || (x in ns && x !in settled && pred'[x] == u && x in d && d'[x] == Fin(d[u].n + cost(u, x))))
    && (forall n :: n in ns && n !in settled && n in d ==> !Less(Fin(d[u].n + cost(u, n)), d'[n]))
  }

  /**
   The corrected relaxation: for each out-neighbour `n` of `u` in `ns` that is not settled,
   when going through `u` is cheaper, lower its cost and make `u` its predecessor.
   */
  function RelaxFrom<V(!new)>(d: map<V, Cost>, pred: map<V, V>, ns: seq<V>, settled: set<V>, u: V, cost: (V, V) -> nat): (r: (map<V, Cost>, map<V, V>))
    requires u in settled && u in d && d[u].Fin?
    requires pred.Keys <= d.Keys && forall n :: n in ns ==> n in d
    ensures r.0.Keys == d.Keys && pred.Keys <= r.1.Keys
    ensures forall x :: x in d ==> !Less(d[x], r.0[x])
    ensures forall x :: x in d && (x in settled || x !in ns) ==> r.0[x] == d[x]
    ensures forall x :: x in d && r.0[x] != d[x] ==> x in r.1 && r.1[x] == u
    ensures forall x :: x in r.1 ==>
      (x in pred && r.1[x] == pred[x] && r.0[x] == d[x]) || (x in ns && x !in settled && r.1[x] == u && r.0[x] == Fin(d[u].n + cost(u, x)))
    ensures forall n :: n in ns && n !in settled ==> !Less(Fin(d[u].n + cost(u, n)), r.0[n])
    decreases |ns|
  {
    if ns == [] then (d, pred)
    else
      var n := ns[0];
      var cand := Fin(d[u].n + cost(u, n));
      if n !in settled && Less(cand, d[n]) then RelaxFrom(d[n := cand], pred[n := u], ns[1..], settled, u, cost)
      else RelaxFrom(d, pred, ns[1..], settled, u, cost)
  }

  /** The out-neighbours of a settled vertex of the component are in the cost table. */
  lemma NeighboursInTable<V(!new)>(g: Graph<V>, start: V, comp: set<V>, d: map<V, Cost>, m: V)
    requires Component(g, start, comp) && (forall x :: x in d <==> x in comp) && m in comp
    ensures forall n :: n in Neighbours(g, m) ==> n in d
  {
    forall n | n in Neighbours(g, m) ensures n in d {
      ComponentClosed(g, start, comp, m, n);
    }
  }

  /** The contract of `RelaxFrom`, gathered into `Lowered`. */
  lemma RelaxFromLowered<V(!new)>(d: map<V, Cost>, pred: map<V, V>, ns: seq<V>, settled: set<V>, u: V, cost: (V, V) -> nat)
    requires u in settled && u in d && d[u].Fin?
    requires pred.Keys <= d.Keys && forall n :: n in ns ==> n in d
    ensures var r := RelaxFrom(d, pred, ns, settled, u, cost);
      Lowered(d, pred, ns, settled, u, cost, r.0, r.1)
  {
  }

  /** Relaxation keeps `start` at cost zero without a predecessor, and gives every vertex it makes finite a predecessor. */
  lemma RelaxRooted<V(!new)>(g: Graph<V>, cost: (V, V) -> nat, start: V, d: map<V, Cost>, settled: set<V>,
                             pred: map<V, V>, m: V, d': map<V, Cost>, pred': map<V, V>)
    requires Rooted(start, d, pred) && start in settled && m in d && d[m].Fin?
    requires Lowered(d, pred, Neighbours(g, m), settled, m, cost, d', pred')
    ensures Rooted(start, d', pred')
  {
    forall x | x in d' && x != start && d'[x].Fin? ensures x in pred' {
      if d'[x] == d[x] {
        assert x in pred;
      }
    }
  }

  /** Relaxation through the settled vertex `m` keeps every predecessor an edge that accounts for the cost. */
  lemma RelaxPredEdges<V(!new)>(g: Graph<V>, cost: (V, V) -> nat, d: map<V, Cost>, settled: set<V>,
                                pred: map<V, V>, m: V, d': map<V, Cost>, pred': map<V, V>)
    requires PredEdges(g, cost, d, settled, pred) && m in settled && m in d && d[m].Fin?
    requires Lowered(d, pred, Neighbours(g, m), settled, m, cost, d', pred')
    ensures PredEdges(g, cost, d', settled, pred')
  {
    forall x | x in pred' ensures
      && x in d' && pred'[x] in settled && pred'[x] in d' && d'[pred'[x]].Fin? && IsEdge(g, pred'[x], x)
      && d'[x] == Fin(d'[pred'[x]].n + cost(pred'[x], x))
    {
      if x in pred && pred'[x] == pred[x] && x in d && d'[x] == d[x] {
        assert d'[pred[x]] == d[pred[x]];
      } else {
        assert x in Neighbours(g, m) && d'[m] == d[m];
      }
    }
  }

  /** Relaxation gives predecessors only to unsettled vertices, so the ranks stay ordered. */
  lemma RelaxRanked<V(!new)>(g: Graph<V>, cost: (V, V) -> nat, d: map<V, Cost>, settled: set<V>,
                             pred: map<V, V>, rank: map<V, nat>, count: nat, m: V, d': map<V, Cost>, pred': map<V, V>)
    requires Ranked(settled, pred, rank, count) && m in d && d[m].Fin?
    requires Lowered(d, pred, Neighbours(g, m), settled, m, cost, d', pred')
    ensures Ranked(settled, pred', rank, count)
  {
  }

  /** Relaxing the out-edges of the vertex `m` just settled keeps the predecessor tree. */
  lemma RelaxTree<V(!new)>(g: Graph<V>, cost: (V, V) -> nat, start: V, d: map<V, Cost>, settled: set<V>,
                           pred: map<V, V>, rank: map<V, nat>, count: nat, m: V, d': map<V, Cost>, pred': map<V, V>)
    requires Tree(g, cost, start, d, settled, pred, rank, count) && start in settled
    requires m in settled && m in d && d[m].Fin?
    requires Lowered(d, pred, Neighbours(g, m), settled, m, cost, d', pred')
    ensures Tree(g, cost, start, d', settled, pred', rank, count)
  {
    RelaxRooted(g, cost, start, d, settled, pred, m, d', pred');
    RelaxPredEdges(g, cost, d, settled, pred, m, d', pred');
    RelaxRanked(g, cost, d, settled, pred, rank, count, m, d', pred');
  }

  /** Relaxing the out-edges of the vertex `m` just settled completes the relaxation out of the settled set. */
  lemma RelaxRelaxed<V(!new)>(g: Graph<V>, cost: (V, V) -> nat, d: map<V, Cost>, settled: set<V>,
                              pred: map<V, V>, m: V, d': map<V, Cost>, pred': map<V, V>)
    requires Relaxed(g, cost, d, settled) && m in d && d[m].Fin? && pred.Keys <= d.Keys
    requires forall n :: n in Neighbours(g, m) ==> n in d
    requires Lowered(d, pred, Neighbours(g, m), settled + {m}, m, cost, d', pred')
    ensures Relaxed(g, cost, d', settled + {m})
  {
    forall u, y | u in settled + {m} && IsEdge(g, u, y) && y !in settled + {m}
      ensures u in d' && y in d' && !Less(Plus(d'[u], Fin(cost(u, y))), d'[y])
    {
      if u == m {
        assert y in Neighbours(g, m);
      } else {
        assert !Less(d[y], d'[y]);
      }
    }
  }

  /** A walk extended at the front by an edge into its first vertex; its cost grows by that edge's cost. */
  lemma WalkPrepend<V(!new)>(g: Graph<V>, cost: (V, V) -> nat, p: seq<V>, y: V, x: V, t: V)
    requires WalkFromTo(g, p, x, t) && IsEdge(g, y, x)
    ensures WalkFromTo(g, [y] + p, y, t)
    ensures WalkCost(cost, [y] + p) == cost(y, x) + WalkCost(cost, p)
  {
    var q := [y] + p;
    assert q[1..] == p;
    forall i | 0 <= i < |q| - 1 ensures IsEdge(g, q[i], q[i + 1]) {
      if i > 0 {
        assert q[i] == p[i - 1] && q[i + 1] == p[i];
      }
    }
  }

  /** Settling the cheapest key keeps the table, with the settled vertex taken out of the keys. */
  lemma SettleTable<V(!new)>(comp: set<V>, d: map<V, Cost>, keys: seq<V>, settled: set<V>, m: V)
    requires Table(comp, d, keys, settled) && m in keys
    ensures Table(comp, d, RemoveAll(keys, {m}), settled + {m})
    ensures |RemoveAll(keys, {m})| < |keys|
  {
  }

  /** The invariant of the main loop. */
  ghost predicate LoopInv<V(!new)>(g: Graph<V>, cost: (V, V) -> nat, start: V, dest: V, comp: set<V>, d: map<V, Cost>,
                                   keys: seq<V>, settled: set<V>, pred: map<V, V>, rank: map<V, nat>, count: nat) {
    && Component(g, start, comp) && Table(comp, d, keys, settled) && dest in comp
    && Tree(g, cost, start, d, settled, pred, rank, count)
    && (settled != {} ==> start in settled)
    && Relaxed(g, cost, d, settled) && Settled(g, cost, start, d, settled)
  }

  /**
   Before the first round the component's vertices are all keys, `start` costs zero and
   every other vertex costs infinity; nothing is settled and nobody has a predecessor.
   */
  lemma InitialLoopInv<V(!new)>(g: Graph<V>, cost: (V, V) -> nat, start: V, dest: V, comp: set<V>, order: seq<V>)
    requires Component(g, start, comp) && dest in comp
    requires Distinct(order) && forall u :: u in comp <==> u in order
    ensures var d := map x | x in order :: if x == start then Fin(0) else Inf;
      LoopInv(g, cost, start, dest, comp, d, order, {}, map[], map[], 0)
  {
    assert WalkFromTo(g, [start], start, start);
  }

  /**
   Settling the cheapest key `m`: it leaves the keys, joins the settled set with the next
   rank, and its cost is final. Only the edges out of `m` remain to be relaxed.
   */
  lemma SettleStep<V(!new)>(g: Graph<V>, cost: (V, V) -> nat, start: V, dest: V, comp: set<V>, d: map<V, Cost>,
                            keys: seq<V>, settled: set<V>, pred: map<V, V>, rank: map<V, nat>, count: nat, m: V)
    requires LoopInv(g, cost, start, dest, comp, d, keys, settled, pred, rank, count)
    requires m in keys && forall x :: x in keys ==> !Less(d[x], d[m])
    ensures |RemoveAll(keys, {m})| < |keys| && m in comp && m in d && d[m].Fin?
    ensures Table(comp, d, RemoveAll(keys, {m}), settled + {m})
    ensures Tree(g, cost, start, d, settled + {m}, pred, rank[m := count], count + 1) && start in settled + {m}
    ensures Settled(g, cost, start, d, settled + {m})
  {
    CheapestKey(g, cost, start, comp, d, keys, settled, pred, rank, count, m);
    assert settled == {} ==> m == start;
    SettleTree(g, cost, start, d, settled, pred, rank, count, m);
    SettleTable(comp, d, keys, settled, m);
  }

  /** Relaxing the edges out of the vertex `m` just settled restores the loop invariant. */
  lemma RelaxStep<V(!new)>(g: Graph<V>, cost: (V, V) -> nat, start: V, dest: V, comp: set<V>, d: map<V, Cost>,
                           keys: seq<V>, settled: set<V>, pred: map<V, V>, rank: map<V, nat>, count: nat, m: V)
    requires Component(g, start, comp) && Table(comp, d, keys, settled + {m}) && dest in comp
    requires Tree(g, cost, start, d, settled + {m}, pred, rank, count) && start in settled + {m}
    requires Relaxed(g, cost, d, settled) && Settled(g, cost, start, d, settled + {m})
    ensures forall n :: n in Neighbours(g, m) ==> n in d
    ensures var r := RelaxFrom(d, pred, Neighbours(g, m), settled + {m}, m, cost);
      LoopInv(g, cost, start, dest, comp, r.0, keys, settled + {m}, r.1, rank, count)
  {
    NeighboursInTable(g, start, comp, d, m);
    var r := RelaxFrom(d, pred, Neighbours(g, m), settled + {m}, m, cost);
    RelaxFromLowered(d, pred, Neighbours(g, m), settled + {m}, m, cost);
    RelaxTree(g, cost, start, d, settled + {m}, pred, rank, count, m, r.0, r.1);
    RelaxRelaxed(g, cost, d, settled, pred, m, r.0, r.1);
  }

  /**
   Following the predecessors from the settled vertex `dest` back to `start` gives a walk
   from `start` to `dest` whose cost is the settled cost of `dest`.
   */
  method Rebuild<V(!new)>(g: Graph<V>, cost: (V, V) -> nat, start: V, dest: V, d: map<V, Cost>, settled: set<V>,
                          pred: map<V, V>, ghost rank: map<V, nat>, ghost count: nat) returns (p: seq<V>)
    requires Tree(g, cost, start, d, settled, pred, rank, count)
    requires Settled(g, cost, start, d, settled) && dest in settled
    ensures dest in d && d[dest].Fin?
    ensures WalkFromTo(g, p, start, dest) && WalkCost(cost, p) == d[dest].n
  {
    p := [dest];
    var x := dest;
    while x != start
      invariant x in settled && x in d && d[x].Fin? && WalkFromTo(g, p, x, dest)
      invariant d[x].n + WalkCost(cost, p) == d[dest].n
      decreases rank[x]
    {
      var y := pred[x];
      WalkPrepend(g, cost, p, y, x, dest);
      p, x := [y] + p, y;
    }
  }

  /**
   The main loop: settle the cheapest key and relax the edges out of it, until `dest` is
   settled. The component is the vertices reachable from `start`, listed in `order`.
   */
  method Settle<V(!new)>(g: Graph<V>, cost: (V, V) -> nat, start: V, dest: V, ghost comp: set<V>, order: seq<V>)
    returns (d: map<V, Cost>, settled: set<V>, pred: map<V, V>, ghost rank: map<V, nat>, ghost count: nat)
    requires Component(g, start, comp) && dest in comp
    requires Distinct(order) && forall u :: u in comp <==> u in order
    ensures Tree(g, cost, start, d, settled, pred, rank, count)
    ensures Settled(g, cost, start, d, settled) && dest in settled
  {
    var keys := order;
    d := map x | x in order :: if x == start then Fin(0) else Inf;
    settled, pred, rank, count := {}, map[], map[], 0;
    InitialLoopInv(g, cost, start, dest, comp, order);
    while true
      invariant LoopInv(g, cost, start, dest, comp, d, keys, settled, pred, rank, count) && dest in keys
      decreases |keys|
    {
      var m := keys[ArgMin(keys, d)];
      SettleStep(g, cost, start, dest, comp, d, keys, settled, pred, rank, count, m);
      keys := RemoveAll(keys, {m});
      rank, count := rank[m := count], count + 1;
      if m == dest {
        settled := settled + {m};
        break;
      }
      RelaxStep(g, cost, start, dest, comp, d, keys, settled, pred, rank, count, m);
      var r := RelaxFrom(d, pred, Neighbours(g, m), settled + {m}, m, cost);
      d, pred, settled := r.0, r.1, settled + {m};
    }
  }

  /**
   `least_cost_path` as its documentation describes it. Equal ends give the one-vertex path,
   and a destination outside the component of `start` gives None. Otherwise the result is a
   walk along the edges from `start` to `dest`, and no walk between them costs less.
   */
  method LeastCostPath<V(!new)>(g: Graph<V>, start: V, dest: V, cost: (V, V) -> nat) returns (res: Outcome<V>)
    requires Closed(g)
    ensures res.Path? <==> Reachable(g, start, dest)
    ensures !res.Path? ==> res == NoPath
    ensures start == dest ==> res == Path([start])
    ensures res.Path? ==> WalkFromTo(g, res.p, start, dest)
    ensures res.Path? ==> forall w :: WalkFromTo(g, w, start, dest) ==> WalkCost(cost, res.p) <= WalkCost(cost, w)
  {
    if start == dest {
      assert WalkFromTo(g, [start], start, start);
      return Path([start]);
    }
    var component, order, _ := DepthFirstSearch(g, start);
    if dest !in component {
      return NoPath;
    }
    var d, settled, pred, rank, count := Settle(g, cost, start, dest, component.Keys, order);
    var p := Rebuild(g, cost, start, dest, d, settled, pred, rank, count);
    res := Path(p);
  }
}
