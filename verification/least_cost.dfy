/**
 `least_cost_path` of server_new.py, as written. It finds the component of `start` with the
 queue search, gives every vertex of it a tentative cost (infinite, and zero for `start`),
 and repeats a Dijkstra-style round: relax the out-neighbours of the current vertex, mark
 it visited, drop it from the component and from the cost table, and take the cheapest
 remaining vertex as the next current vertex. Each round also records, for the new current
 vertex, the "arrival" pairs (n, current) for visited out-neighbours n whose edge cost back
 to it matches the rise in tentative cost. When the destination becomes current, the path
 is rebuilt backwards through those pairs until `start` is met.

 Costs are natural numbers given by an arbitrary cost function on ordered pairs of vertices;
 infinity is the `Inf` cost. The exceptions the code can raise and the backtracking loop
 that never ends are outcomes of their own.
 */
module LeastCost {
  import opened Wrappers
  import opened Digraph
  import opened Search

  /** A tentative cost: a natural number or `float("inf")`. */
  datatype Cost = Fin(n: nat) | Inf

  /** `a + b`, with infinity absorbing. */
  function Plus(a: Cost, b: Cost): (r: Cost)
    ensures r.Inf? <==> a.Inf? || b.Inf?
    ensures r.Fin? ==> r.n == a.n + b.n
  {
    if a.Inf? || b.Inf? then Inf else Fin(a.n + b.n)
  }

  /** `a < b` on the floats the source uses: every number is below infinity, infinity is below nothing. */
  function Less(a: Cost, b: Cost): (r: bool)
    ensures a.Fin? && b.Fin? ==> (r <==> a.n < b.n)
    ensures a.Inf? ==> !r
    ensures a.Fin? && b.Inf? ==> r
  {
    a.Fin? && (b.Inf? || a.n < b.n)
  }

  /** `Less` is a strict total order on costs, with infinity on top. */
  lemma LessStrictTotal(a: Cost, b: Cost, c: Cost)
    ensures !Less(a, a)
    ensures Less(a, b) ==> !Less(b, a)
    ensures Less(a, b) && Less(b, c) ==> Less(a, c)
    ensures a != b ==> Less(a, b) || Less(b, a)
    ensures !Less(Inf, a) && (a.Fin? <==> Less(a, Inf))
  {
  }

  /** What is below `b` is below everything `b` is not above, and nothing there is below it. */
  lemma LessBelow(a: Cost, b: Cost, c: Cost)
    requires Less(a, b) && !Less(c, b)
    ensures Less(a, c) && !Less(c, a)
  {
  }

  /**
   `c == a - b` for a finite edge cost `c`: a difference involving infinity is infinite or
   not a number, which equals no finite cost.
   */
  predicate RisesBy(a: Cost, b: Cost, c: nat) {
    a.Fin? && b.Fin? && a.n - b.n == c
  }

  /** The exceptions the source can raise. */
  datatype Fault = KeyError | UnboundLocal

  /** What a call ends in. `Hang` is the backtracking loop finding no way back: it then repeats forever. */
  datatype Outcome<V> = Path(p: seq<V>) | NoPath | Raised(fault: Fault) | Hang

  /**
   The local variables of the main loop: `component` (as its key set), `visited`,
   `visited_edges`, `shortest_path`, the `costs` dict (its keys in insertion order and its
   values), `cheapest` and `previous` (None until first assigned).
   */
  datatype State<V> = State(
    comp: set<V>,
    visited: set<V>,
    edges: seq<(V, V)>,
    path: seq<V>,
    keys: seq<V>,
    costs: map<V, Cost>,
    cheapest: V,
    previous: Option<Cost>)

  /** One round of the main loop either continues with a new state or ends the call. */
  datatype Next<V> = Continue(s: State<V>) | Stop(o: Outcome<V>)

  /**
   The relaxation loop: for each out-neighbour `n` of `u` in list order that is not visited,
   lower `costs[n]` to `cost(u, n) + costs[u]` when that is smaller. Reading a cost that is
   not in the table raises `KeyError` (None here).
   */
  function Relax<V(!new)>(costs: map<V, Cost>, ns: seq<V>, visited: set<V>, u: V, cost: (V, V) -> nat): (r: Option<map<V, Cost>>)
    ensures r.None? <==> exists i :: 0 <= i < |ns| && ns[i] !in visited && (ns[i] !in costs || u !in costs)
    ensures r.Some? ==> r.value.Keys == costs.Keys
    ensures r.Some? ==> forall x :: x in costs ==> !Less(costs[x], r.value[x])
    ensures r.Some? ==> forall x :: x in costs && (x in visited || x !in ns) ==> r.value[x] == costs[x]
    ensures r.Some? && u in costs ==> r.value[u] == costs[u]
    ensures r.Some? && u in costs ==> forall i :: 0 <= i < |ns| && ns[i] !in visited ==> !Less(Plus(Fin(cost(u, ns[i])), costs[u]), r.value[ns[i]])
    decreases |ns|
  {
    if ns == [] then Some(costs)
    else
      var n := ns[0];
      if n in visited then
        var r := Relax(costs, ns[1..], visited, u, cost);
        assert r.None? ==> exists i :: 0 <= i < |ns| && ns[i] !in visited && (ns[i] !in costs || u !in costs) by {
          if r.None? {
            var i :| 0 <= i < |ns[1..]| && ns[1..][i] !in visited && (ns[1..][i] !in costs || u !in costs);
            assert ns[i + 1] == ns[1..][i];
          }
        }
        r
      else if n !in costs || u !in costs then None
      else
        var cand := Plus(Fin(cost(u, n)), costs[u]);
        var costs' := if Less(cand, costs[n]) then costs[n := cand] else costs;
        var r := Relax(costs', ns[1..], visited, u, cost);
        assert r.None? ==> exists i :: 0 <= i < |ns| && ns[i] !in visited && (ns[i] !in costs || u !in costs) by {
          if r.None? {
            var i :| 0 <= i < |ns[1..]| && ns[1..][i] !in visited && (ns[1..][i] !in costs' || u !in costs');
            assert ns[i + 1] == ns[1..][i];
          }
        }
        r
  }

  /** Every cost the relaxation changes becomes `cost(u, x) + costs[u]`: the cost through `u`. */
  lemma {:induction false} RelaxValues<V(!new)>(costs: map<V, Cost>, ns: seq<V>, visited: set<V>, u: V, cost: (V, V) -> nat)
    ensures var r := Relax(costs, ns, visited, u, cost);
      r.Some? ==> forall x :: x in costs && r.value[x] != costs[x] ==> u in costs && r.value[x] == Plus(Fin(cost(u, x)), costs[u])
    decreases |ns|
  {
    if ns != [] {
      var n := ns[0];
      if n in visited {
        RelaxValues(costs, ns[1..], visited, u, cost);
      } else if n in costs && u in costs {
        var cand := Plus(Fin(cost(u, n)), costs[u]);
        var costs' := if Less(cand, costs[n]) then costs[n := cand] else costs;
        assert costs'[u] == costs[u];
        RelaxValues(costs', ns[1..], visited, u, cost);
      }
    }
  }

  /**
   `min(costs, key=costs.get)`: the position of the first key whose cost no other key
   undercuts. Every earlier key costs strictly more.
   */
  function ArgMin<V>(keys: seq<V>, costs: map<V, Cost>): (i: nat)
    requires |keys| > 0 && forall x :: x in keys ==> x in costs
    ensures i < |keys|
    ensures forall j :: 0 <= j < |keys| ==> !Less(costs[keys[j]], costs[keys[i]])
    ensures forall j :: 0 <= j < i ==> Less(costs[keys[i]], costs[keys[j]])
  {
    MinFrom(keys, costs, 0, 1)
  }

  /** The scan behind `ArgMin`: `best` is the answer for the first `k` keys. */
  function MinFrom<V>(keys: seq<V>, costs: map<V, Cost>, best: nat, k: nat): (i: nat)
    requires best < k <= |keys| && forall x :: x in keys ==> x in costs
    requires forall j :: 0 <= j < k ==> !Less(costs[keys[j]], costs[keys[best]])
    requires forall j :: 0 <= j < best ==> Less(costs[keys[best]], costs[keys[j]])
    ensures i < |keys|
    ensures forall j :: 0 <= j < |keys| ==> !Less(costs[keys[j]], costs[keys[i]])
    ensures forall j :: 0 <= j < i ==> Less(costs[keys[i]], costs[keys[j]])
    decreases |keys| - k
  {
    if k == |keys| then best
    else if Less(costs[keys[k]], costs[keys[best]]) then
      assert forall j :: 0 <= j < k ==> Less(costs[keys[k]], costs[keys[j]]) && !Less(costs[keys[j]], costs[keys[k]]) by {
        forall j | 0 <= j < k ensures Less(costs[keys[k]], costs[keys[j]]) && !Less(costs[keys[j]], costs[keys[k]]) {
          LessBelow(costs[keys[k]], costs[keys[best]], costs[keys[j]]);
        }
      }
      MinFrom(keys, costs, k, k + 1)
    else MinFrom(keys, costs, best, k + 1)
  }

  /**
   The arrival pairs recorded for the new current vertex `v`: `(n, v)` for each out-neighbour
   `n` of `v`, in list order, that is visited and whose edge cost `cost(n, v)` equals the
   rise from `previous` to `v`'s cost.
   */
  function Arrivals<V(==,!new)>(ns: seq<V>, visited: set<V>, v: V, cv: Cost, previous: Cost, cost: (V, V) -> nat): (r: seq<(V, V)>)
    ensures forall e :: e in r <==> e.1 == v && e.0 in ns && e.0 in visited && RisesBy(cv, previous, cost(e.0, v))
    ensures |r| <= |ns|
  {
    if ns == [] then []
    else
      var rest := Arrivals(ns[1..], visited, v, cv, previous, cost);
      if ns[0] in visited && RisesBy(cv, previous, cost(ns[0], v)) then [(ns[0], v)] + rest else rest
  }

  /** The first position in `ns` of an `n` whose pair `(n, u)` is recorded, or None. */
  function FindBack<V(==,!new)>(ns: seq<V>, edges: seq<(V, V)>, u: V): (r: Option<nat>)
    ensures r.Some? ==> r.value < |ns| && (ns[r.value], u) in edges
  {
    if ns == [] then None
    else if (ns[0], u) in edges then Some(0)
    else match FindBack(ns[1..], edges, u)
      case None => None
      case Some(i) => Some(i + 1)
  }

  /**
   `FindBack` finds nothing exactly when no element of `ns` has its pair recorded, and what
   it finds is the first such element.
   */
  lemma {:induction false} FindBackFirst<V(!new)>(ns: seq<V>, edges: seq<(V, V)>, u: V)
    ensures FindBack(ns, edges, u).None? <==> forall n :: n in ns ==> (n, u) !in edges
    ensures FindBack(ns, edges, u).Some? ==> forall j :: 0 <= j < FindBack(ns, edges, u).value ==> (ns[j], u) !in edges
  {
    if ns != [] && (ns[0], u) !in edges {
      FindBackFirst(ns[1..], edges, u);
      assert forall n :: n in ns ==> n == ns[0] || n in ns[1..];
      if FindBack(ns, edges, u).Some? {
        forall j | 0 <= j < FindBack(ns, edges, u).value ensures (ns[j], u) !in edges {
          if j > 0 {
            assert ns[j] == ns[1..][j - 1];
          }
        }
      }
    }
  }

  /** `list.remove`: drop the first occurrence of `e`. */
  function RemoveFirst<T(==,!new)>(s: seq<T>, e: T): (r: seq<T>)
    requires e in s
    ensures |r| == |s| - 1
    ensures forall x :: x in r ==> x in s
  {
    if s[0] == e then s[1..] else [s[0]] + RemoveFirst(s[1..], e)
  }

  /** `list.remove` takes out exactly one occurrence of `e` and keeps everything else. */
  lemma {:induction false} RemoveFirstRemovesOne<T(!new)>(s: seq<T>, e: T)
    requires e in s
    ensures multiset(RemoveFirst(s, e)) == multiset(s) - multiset{e}
  {
    assert s == [s[0]] + s[1..];
    if s[0] != e {
      RemoveFirstRemovesOne(s[1..], e);
    }
  }

  /** `list.reverse`. */
  function Reverse<T>(s: seq<T>): (r: seq<T>)
    ensures |r| == |s|
    ensures forall i :: 0 <= i < |s| ==> r[i] == s[|s| - 1 - i]
  {
    if s == [] then [] else Reverse(s[1..]) + [s[0]]
  }

  /**
   A path built backwards from `dest`: each element has an edge to the element appended
   after it, except where `dest` follows `dest` (the main loop can append `dest` a second
   time without a step in between).
   */
  ghost predicate BackSteps<V(!new)>(g: Graph<V>, dest: V, p: seq<V>) {
    forall i :: 0 <= i < |p| - 1 ==> IsEdge(g, p[i], p[i + 1]) || (p[i] == dest && p[i + 1] == dest)
  }

  /**
   A path read forwards from `start`: each element has an edge to the element before it,
   except where `dest` follows `dest`. This is `BackSteps` of the reversed path.
   */
  ghost predicate ReverseSteps<V(!new)>(g: Graph<V>, dest: V, p: seq<V>) {
    forall i :: 0 <= i < |p| - 1 ==> IsEdge(g, p[i + 1], p[i]) || (p[i] == dest && p[i + 1] == dest)
  }

  /** What the backtracking loop ends in. */
  datatype Back<V> = Found(p: seq<V>) | Exhausted(path: seq<V>, at: V) | Stuck

  /**
   The backtracking loop, from the current vertex `u` with `path` built so far: while
   arrival pairs remain, take the first out-neighbour `n` of `u` with `(n, u)` recorded,
   remove that pair, append `n` and continue from it; meeting `start` returns the reversed
   path. When no out-neighbour has a recorded pair the loop makes no progress ever again.
   */
  function Backtrack<V(!new)>(g: Graph<V>, start: V, dest: V, ghost visited: set<V>, edges: seq<(V, V)>, path: seq<V>, u: V): (r: Back<V>)
    requires path != [] && path[|path| - 1] == u && BackSteps(g, dest, path)
    requires forall e :: e in edges ==> e.0 in visited
    ensures r.Found? ==> |r.p| > |path|
    ensures r.Found? ==> r.p[0] == start && r.p[|r.p| - 1] == path[0]
    ensures r.Found? ==> ReverseSteps(g, dest, r.p)
    ensures r.Exhausted? ==> |r.path| >= |path| && r.path[0] == path[0] && r.path[|r.path| - 1] == r.at
    ensures r.Exhausted? ==> BackSteps(g, dest, r.path)
    ensures r.Exhausted? ==> r.at == u || r.at in visited
    ensures Neighbours(g, u) == [] ==> !r.Found?
    decreases |edges|
  {
    if edges == [] then Exhausted(path, u)
    else
      match FindBack(Neighbours(g, u), edges, u)
      case None => Stuck
      case Some(i) =>
        var n := Neighbours(g, u)[i];
        var edges' := RemoveFirst(edges, (n, u));
        var path' := path + [n];
        BackStepsExtend(g, dest, path, n);
        if n == start then
          var p := Reverse(path');
          ReversedSteps(g, dest, path');
          Found(p)
        else
          assert (n, u) in edges;
          Backtrack(g, start, dest, visited, edges', path', n)
  }

  /** A backwards path extended along an edge from its last vertex. */
  lemma BackStepsExtend<V(!new)>(g: Graph<V>, dest: V, path: seq<V>, n: V)
    requires path != [] && BackSteps(g, dest, path) && IsEdge(g, path[|path| - 1], n)
    ensures BackSteps(g, dest, path + [n])
  {
    var path' := path + [n];
    forall j | 0 <= j < |path'| - 1 ensures IsEdge(g, path'[j], path'[j + 1]) || (path'[j] == dest && path'[j + 1] == dest) {
      if j < |path| - 1 {
        assert path'[j] == path[j] && path'[j + 1] == path[j + 1];
      }
    }
  }

  /** Reversing a backwards path turns each step into an edge read from right to left. */
  lemma ReversedSteps<V(!new)>(g: Graph<V>, dest: V, path: seq<V>)
    requires BackSteps(g, dest, path)
    ensures ReverseSteps(g, dest, Reverse(path))
  {
    var p := Reverse(path);
    forall i | 0 <= i < |p| - 1 ensures IsEdge(g, p[i + 1], p[i]) || (p[i] == dest && p[i + 1] == dest) {
      var j := |path| - 2 - i;
      assert p[i + 1] == path[j] && p[i] == path[j + 1];
    }
  }

  /** The facts about the loop variables that every round keeps. */
  ghost predicate Inv<V(!new)>(g: Graph<V>, dest: V, s: State<V>) {
    && Distinct(s.keys)
    && (forall x :: x in s.costs <==> x in s.keys)
    && s.visited !! s.comp
    && (forall e :: e in s.edges ==> e.0 in s.visited)
    && (s.path != [] ==> s.path[0] == dest)
    && (s.path != [] && s.path[|s.path| - 1] != dest ==> s.path[|s.path| - 1] in s.visited && s.cheapest == s.path[|s.path| - 1])
    && BackSteps(g, dest, s.path)
  }

  /**
   The state before the first round: the component's vertices in discovery order, every
   cost infinite except `start`'s, which is zero, and `start` current.
   */
  function Initial<V(!new)>(g: Graph<V>, dest: V, order: seq<V>, start: V): (s: State<V>)
    requires Distinct(order) && start in order
    ensures Inv(g, dest, s)
    ensures s.comp == Elements(order) && s.keys == order && s.cheapest == start
    ensures s.costs[start] == Fin(0) && forall x :: x in order && x != start ==> s.costs[x] == Inf
    ensures s.visited == {} && s.path == []
  {
    State(Elements(order), {}, [], [], order, map x | x in order :: if x == start then Fin(0) else Inf, start, None)
  }

  /**
   A round up to the choice of the next current vertex, in the source's order: relax, mark
   visited, pop from the component, pop from the cost table unless it holds one key, choose
   the cheapest key and record its arrival pairs.
   */
  function Advance<V(!new)>(g: Graph<V>, dest: V, cost: (V, V) -> nat, s: State<V>): (r: Next<V>)
    requires Inv(g, dest, s)
    ensures r.Stop? ==> r.o.Raised?
    ensures r.Continue? ==> Inv(g, dest, r.s) && r.s.path == s.path
    ensures r.Continue? ==> s.cheapest in s.comp && r.s.comp == s.comp - {s.cheapest}
    ensures r.Continue? ==> r.s.visited == s.visited + {s.cheapest}
  {
    var u := s.cheapest;
    match Relax(s.costs, Neighbours(g, u), s.visited, u, cost)
    case None => Stop(Raised(KeyError))
    case Some(costs1) =>
      var visited := s.visited + {u};
      if u !in s.comp then Stop(Raised(KeyError))
      else
        var comp := s.comp - {u};
        var pops := |s.keys| != 1;
        if pops && u !in costs1 then Stop(Raised(KeyError))
        else
          var keys := if pops then RemoveAll(s.keys, {u}) else s.keys;
          var costs := if pops then costs1 - {u} else costs1;
          var previous := if pops then Some(costs1[u]) else s.previous;
          assert keys != [] by {
            if pops {
              var j :| 0 <= j < |s.keys| && s.keys[j] != u;
              assert s.keys[j] in keys;
            }
          }
          var v := keys[ArgMin(keys, costs)];
          var ns := Neighbours(g, v);
          if previous.None? && exists n :: n in ns && n in visited then Stop(Raised(UnboundLocal))
          else
            var arrivals := if previous.None? then [] else Arrivals(ns, visited, v, costs[v], previous.value, cost);
            var edges := s.edges + arrivals;
            assert forall e :: e in edges ==> e.0 in visited;
            Continue(State(comp, visited, edges, s.path, keys, costs, v, previous))
  }

  /**
   A round that continues only lowers costs, and pops the current vertex from the cost
   table unless it was the last key.
   */
  lemma AdvanceLowers<V(!new)>(g: Graph<V>, dest: V, cost: (V, V) -> nat, s: State<V>)
    requires Inv(g, dest, s)
    ensures var r := Advance(g, dest, cost, s);
      r.Continue? ==>
        && (forall x :: x in r.s.costs ==> x in s.costs && !Less(s.costs[x], r.s.costs[x]))
        && r.s.costs.Keys == (if |s.keys| == 1 then s.costs.Keys else s.costs.Keys - {s.cheapest})
  {
  }

  /** A round that continues makes current a key that no other key undercuts. */
  lemma AdvanceChoosesCheapest<V(!new)>(g: Graph<V>, dest: V, cost: (V, V) -> nat, s: State<V>)
    requires Inv(g, dest, s)
    ensures var r := Advance(g, dest, cost, s);
      r.Continue? ==> r.s.cheapest in r.s.costs && forall x :: x in r.s.costs ==> !Less(r.s.costs[x], r.s.costs[r.s.cheapest])
  {
  }

  /**
   The end of a round whose chosen vertex is the destination: append it to the path and
   backtrack. A backtrack that runs out of arrival pairs leaves the loop variables as it
   found them, except the path, the current vertex and the emptied pair list.
   */
  function Arrive<V(!new)>(g: Graph<V>, start: V, dest: V, s: State<V>): (r: Next<V>)
    requires Inv(g, dest, s) && s.cheapest == dest
    ensures r.Continue? ==> Inv(g, dest, r.s)
    ensures r.Continue? ==> r.s.comp == s.comp && r.s.visited == s.visited && r.s.costs == s.costs && r.s.path != s.path
    ensures r.Stop? ==> r.o.Path? || r.o.Hang?
    ensures Neighbours(g, dest) == [] ==> !(r.Stop? && r.o.Path?)
    ensures r.Stop? && r.o.Path? ==> |r.o.p| >= 2 && r.o.p[0] == start && r.o.p[|r.o.p| - 1] == dest
    ensures r.Stop? && r.o.Path? ==> ReverseSteps(g, dest, r.o.p)
  {
    var path := s.path + [dest];
    assert BackSteps(g, dest, path) by {
      forall j | 0 <= j < |path| - 1 ensures IsEdge(g, path[j], path[j + 1]) || (path[j] == dest && path[j + 1] == dest) {
        if j < |s.path| - 1 {
          assert path[j] == s.path[j] && path[j + 1] == s.path[j + 1];
        }
      }
    }
    match Backtrack(g, start, dest, s.visited, s.edges, path, dest)
    case Found(p) => Stop(Path(p))
    case Stuck => Stop(Hang)
    case Exhausted(path', at) =>
      assert |path'| > |s.path|;
      Continue(s.(edges := [], path := path', cheapest := at))
  }

  /** One round of the main loop. */
  function Round<V(!new)>(g: Graph<V>, start: V, dest: V, cost: (V, V) -> nat, s: State<V>): (r: Next<V>)
    requires Inv(g, dest, s)
    ensures Neighbours(g, dest) == [] ==> !(r.Stop? && r.o.Path?)
    ensures r.Continue? ==> Inv(g, dest, r.s)
    ensures r.Continue? ==> s.cheapest in s.comp && r.s.comp == s.comp - {s.cheapest}
    ensures r.Continue? ==> r.s.visited == s.visited + {s.cheapest}
    ensures r.Stop? && r.o.Path? ==> |r.o.p| >= 2 && r.o.p[0] == start && r.o.p[|r.o.p| - 1] == dest
    ensures r.Stop? && r.o.Path? ==> ReverseSteps(g, dest, r.o.p)
  {
    match Advance(g, dest, cost, s)
    case Stop(o) => Stop(o)
    case Continue(t) => if t.cheapest != dest then Continue(t) else Arrive(g, start, dest, t)
  }

  /** The main loop, from state `s` to its outcome; running out of component vertices returns None. */
  function Run<V(!new)>(g: Graph<V>, start: V, dest: V, cost: (V, V) -> nat, s: State<V>): (r: Outcome<V>)
    requires Inv(g, dest, s)
    ensures r.Path? ==> |r.p| >= 2 && r.p[0] == start && r.p[|r.p| - 1] == dest
    ensures r.Path? ==> ReverseSteps(g, dest, r.p)
    ensures Neighbours(g, dest) == [] ==> !r.Path?
    ensures |s.comp| == 0 ==> r == NoPath
    decreases |s.comp|
  {
    if |s.comp| == 0 then NoPath
    else
      match Round(g, start, dest, cost, s)
      case Stop(o) => o
      case Continue(s') =>
        assert |s'.comp| < |s.comp| by {
          assert s.cheapest in s.comp && s'.comp == s.comp - {s.cheapest};
        }
        Run(g, start, dest, cost, s')
  }

  /**
   `least_cost_path`. Equal ends give the one-vertex path; a destination the queue search
   does not reach gives None; a returned path runs from `start` to `dest`, and each step of
   it is an edge read backwards (the backtracking follows out-neighbours of each vertex).
   */
  method LeastCostPath<V(!new)>(g: Graph<V>, start: V, dest: V, cost: (V, V) -> nat) returns (res: Outcome<V>)
    requires Closed(g)
    ensures start == dest ==> res == Path([start])
    ensures start != dest && !Reachable(g, start, dest) ==> res == NoPath
    ensures res.Path? ==> Reachable(g, start, dest)
    ensures res.Path? ==> |res.p| >= 1 && res.p[0] == start && res.p[|res.p| - 1] == dest
    ensures res.Path? ==> forall i :: 0 <= i < |res.p| - 1 ==> IsEdge(g, res.p[i + 1], res.p[i]) || (res.p[i] == dest && res.p[i + 1] == dest)
    ensures start != dest && Neighbours(g, dest) == [] ==> !res.Path?
  {
    if start == dest {
      assert WalkFromTo(g, [start], start, start);
      return Path([start]);
    }
    var component, order, _ := DepthFirstSearch(g, start);
    if dest !in component {
      return NoPath;
    }
    res := Run(g, start, dest, cost, Initial(g, dest, order, start));
  }

  /** The directed path 1 -> 2 -> 3. */
  function ChainGraph(): (g: Graph<int>)
    ensures Valid(g)
  {
    Graph([1, 2, 3], map[1 := [2], 2 := [3], 3 := []])
  }

  /** Every edge costs one. */
  function UnitCost(x: int, y: int): nat {
    1
  }

  /** On the chain the destination 3 is reachable from 1 but has no out-neighbour. */
  lemma ChainFacts()
    ensures Closed(ChainGraph())
    ensures Reachable(ChainGraph(), 1, 3) && Neighbours(ChainGraph(), 3) == []
  {
    assert WalkFromTo(ChainGraph(), [1, 2, 3], 1, 3);
  }
}
