/**
 The coordinate-keyed graph of Archive/graph_old3.py. A vertex is a (latitude, longitude)
 pair; each vertex stores its out-neighbours and may carry an integer ID. A second index maps
 IDs back to coordinates, and every operation that takes a vertex accepts either form: an
 integer is first looked up in the ID index.

 The map data and the ID index are meant to be in one-to-one correspondence (`Consistent`).
 The weaker `IndexSound` (every index entry names a vertex carrying that ID) holds after
 every operation; the full correspondence holds except after an ID update that reuses an ID
 another coordinate still carries (see `StaleIdExample`).
 */
module CoordGraph {
  import opened Wrappers
  import D = Digraph
  import S = Search

  /** A vertex: a (latitude, longitude) pair. */
  datatype Coord = Coord(lat: real, lon: real)

  /** How a caller names a vertex: by coordinates, or by an integer ID. */
  datatype Key = ByCoord(c: Coord) | ById(id: int)

  /** What the graph stores per coordinate: its out-neighbours and, optionally, its ID. */
  datatype Entry = Entry(nbrs: seq<Coord>, id: Option<int>)

  /** `_map_data` and `_id_index`. */
  datatype Graph = Graph(data: map<Coord, Entry>, idIndex: map<int, Coord>)

  /** The exceptions the source raises: `KeyError` from popping a missing ID, `TypeError` from iterating `None`. */
  datatype Fault = KeyError(id: int) | TypeError

  /** Every stored neighbour is itself a vertex. */
  ghost predicate NbrsClosed(g: Graph) {
    forall c, n :: c in g.data && n in g.data[c].nbrs ==> n in g.data
  }

  /** Every ID in the index names a vertex that carries that ID. */
  ghost predicate IndexSound(g: Graph) {
    forall i :: i in g.idIndex ==> g.idIndex[i] in g.data && g.data[g.idIndex[i]].id == Some(i)
  }

  /** The state every operation keeps. */
  ghost predicate WellFormed(g: Graph) {
    NbrsClosed(g) && IndexSound(g)
  }

  /** The two indexes agree in both directions: no coordinate carries an ID the index does not give back. */
  ghost predicate Consistent(g: Graph) {
    && IndexSound(g)
    && forall c :: c in g.data && g.data[c].id.Some? ==> g.data[c].id.value in g.idIndex && g.idIndex[g.data[c].id.value] == c
  }

  /** `Graph()` with no arguments. */
  function Empty(): (r: Graph)
    ensures WellFormed(r) && Consistent(r)
    ensures forall k :: !IsVertex(r, k)
  {
    Graph(map[], map[])
  }

  /** `id_to_coord`: the coordinates holding an ID, or None (the source's `()`) for an unknown ID. */
  function IdToCoord(g: Graph, i: int): (r: Option<Coord>)
    ensures r.Some? <==> i in g.idIndex
    ensures IndexSound(g) && r.Some? ==> r.value in g.data && g.data[r.value].id == Some(i)
  {
    if i in g.idIndex then Some(g.idIndex[i]) else None
  }

  /** `coord_to_id`: the ID of a vertex, or None when the coordinates are absent or carry no ID. */
  function CoordToId(g: Graph, c: Coord): (r: Option<int>)
    ensures r.None? <==> c !in g.data || g.data[c].id.None?
    ensures Consistent(g) && r.Some? ==> r.value in g.idIndex && g.idIndex[r.value] == c
  {
    if c !in g.data then None else g.data[c].id
  }

  /** The two lookups are inverse to each other exactly when the indexes are consistent. */
  lemma IdCoordRoundTrip(g: Graph, i: int, c: Coord)
    requires Consistent(g)
    ensures IdToCoord(g, i) == Some(c) <==> CoordToId(g, c) == Some(i)
  {
  }

  /** An integer names the vertex the index gives for it; coordinates name themselves. */
  function Resolve(g: Graph, k: Key): (r: Option<Coord>)
    ensures k.ByCoord? ==> r == Some(k.c)
    ensures k.ById? ==> r == IdToCoord(g, k.id)
  {
    match k
    case ByCoord(c) => Some(c)
    case ById(i) => IdToCoord(g, i)
  }

  /** `is_vertex`: coordinates are a vertex when stored; an ID when it resolves to stored coordinates. */
  function IsVertex(g: Graph, k: Key): (r: bool)
    ensures k.ByCoord? ==> (r <==> k.c in g.data)
    ensures k.ById? ==> (r <==> k.id in g.idIndex && g.idIndex[k.id] in g.data)
  {
    Resolve(g, k).Some? && Resolve(g, k).value in g.data
  }

  /** With a sound index, an ID names a vertex exactly when it is in the index. */
  lemma IsVertexById(g: Graph, i: int)
    requires IndexSound(g)
    ensures IsVertex(g, ById(i)) <==> i in g.idIndex
  {
  }

  /**
   `is_edge`: the start names a vertex and the end's coordinates are among its neighbours.
   An unknown ID at either end gives false; with closed neighbour lists the end is a vertex too.
   */
  function IsEdge(g: Graph, a: Key, b: Key): (r: bool)
    ensures r ==> IsVertex(g, a) && Resolve(g, b).Some?
    ensures r && NbrsClosed(g) ==> IsVertex(g, ByCoord(Resolve(g, b).value))
  {
    IsVertex(g, a) && Resolve(g, b).Some? && Resolve(g, b).value in g.data[Resolve(g, a).value].nbrs
  }

  /** `is_edge` resolves an ID at either end first: an edge between keys is the edge between the vertices they name. */
  lemma IsEdgeResolves(g: Graph, a: Key, b: Key)
    ensures IsEdge(g, a, b) <==>
      IsVertex(g, a) && Resolve(g, b).Some? && IsEdge(g, ByCoord(Resolve(g, a).value), ByCoord(Resolve(g, b).value))
    ensures IsEdge(g, a, b) <==>
      IsVertex(g, a) && Resolve(g, b).Some? && D.IsEdge(Project(g), Resolve(g, a).value, Resolve(g, b).value)
  {
  }

  /** The first step of `add_vertex`: an absent coordinate joins with no neighbours and no ID. */
  function Place(g: Graph, c: Coord): (r: Graph)
    requires IndexSound(g)
    ensures r.data.Keys == g.data.Keys + {c} && r.idIndex == g.idIndex && IndexSound(r)
    ensures forall d :: d in g.data ==> r.data[d] == g.data[d]
    ensures c !in g.data ==> r.data[c] == Entry([], None)
  {
    if c in g.data then g else g.(data := g.data[c := Entry([], None)])
  }

  /** Placing a coordinate keeps every neighbour a vertex and the index consistent. */
  lemma PlaceKeeps(g: Graph, c: Coord)
    requires IndexSound(g)
    ensures NbrsClosed(g) ==> NbrsClosed(Place(g, c))
    ensures Consistent(g) ==> Consistent(Place(g, c))
  {
  }

  /**
   The first-assignment branch of `add_vertex`: the vertex `c`, present without an ID,
   takes ID `i`, and whichever vertex the index named for `i` loses its ID.
   */
  function AssignId(g: Graph, c: Coord, i: int): (r: Graph)
    requires IndexSound(g) && c in g.data && g.data[c].id.None?
    ensures r.data.Keys == g.data.Keys && IndexSound(r)
    ensures forall d :: d in g.data ==> r.data[d].nbrs == g.data[d].nbrs
    ensures IdToCoord(r, i) == Some(c) && CoordToId(r, c) == Some(i)
    ensures forall j :: j != i ==> IdToCoord(r, j) == IdToCoord(g, j)
    ensures i in g.idIndex ==> CoordToId(r, g.idIndex[i]) == None
    ensures forall d :: d in g.data && d != c && (i !in g.idIndex || d != g.idIndex[i]) ==> r.data[d].id == g.data[d].id
  {
    var data2 := g.data[c := g.data[c].(id := Some(i))];
    var data3 :=
      if i in g.idIndex then
        var temp := g.idIndex[i];
        data2[temp := Entry(data2[temp].nbrs, None)]
      else data2;
    Graph(data3, g.idIndex[i := c])
  }

  /**
   The update branch of `add_vertex`: the vertex `c`, which carries the ID `prev`, has
   `prev` popped from the index and takes ID `i`. Popping an ID that is no longer in the
   index raises `KeyError`. No other vertex is touched, even one that carries `i`.
   */
  function ReassignId(g: Graph, c: Coord, i: int): (r: Result<Graph, Fault>)
    requires IndexSound(g) && c in g.data && g.data[c].id.Some?
    ensures r.Failure? <==> g.data[c].id.value !in g.idIndex
    ensures r.Failure? ==> r.error == KeyError(g.data[c].id.value)
    ensures r.Success? ==> r.value.data.Keys == g.data.Keys && IndexSound(r.value)
    ensures r.Success? ==> forall d :: d in g.data ==> r.value.data[d].nbrs == g.data[d].nbrs
    ensures r.Success? ==> IdToCoord(r.value, i) == Some(c) && CoordToId(r.value, c) == Some(i)
    ensures r.Success? && g.data[c].id.value != i ==> IdToCoord(r.value, g.data[c].id.value) == None
    ensures r.Success? ==> forall d :: d in g.data && d != c ==> r.value.data[d].id == g.data[d].id
    ensures r.Success? ==> forall j :: j != i && j != g.data[c].id.value ==> IdToCoord(r.value, j) == IdToCoord(g, j)
  {
    var prev := g.data[c].id.value;
    if prev !in g.idIndex then Failure(KeyError(prev))
    else Success(Graph(g.data[c := g.data[c].(id := Some(i))], (g.idIndex - {prev})[i := c]))
  }

  /** Neighbour lists that are unchanged on the same vertices keep every neighbour a vertex. */
  lemma SameNbrsClosed(g: Graph, r: Graph)
    requires r.data.Keys == g.data.Keys
    requires forall d :: d in g.data ==> r.data[d].nbrs == g.data[d].nbrs
    ensures NbrsClosed(g) ==> NbrsClosed(r)
  {
  }

  /**
   `add_vertex((lat, lon))` when `oid` is None and `add_vertex((lat, lon, id))` otherwise.
   An absent coordinate is first added with no neighbours and no ID. A coordinate without
   an ID takes the new one, and the ID is revoked from whichever vertex the index named for
   it. A coordinate with an ID has its old ID popped from the index, which raises
   `KeyError` when that ID is no longer there.
   */
  function AddVertex(g: Graph, c: Coord, oid: Option<int>): (r: Result<Graph, Fault>)
    requires IndexSound(g)
    ensures r.Failure? <==> c in g.data && g.data[c].id.Some? && oid.Some? && g.data[c].id.value !in g.idIndex
    ensures r.Failure? ==> r.error == KeyError(g.data[c].id.value)
    ensures r.Success? ==> r.value.data.Keys == g.data.Keys + {c} && IndexSound(r.value)
    ensures r.Success? ==> forall d :: d in g.data ==> r.value.data[d].nbrs == g.data[d].nbrs
    ensures r.Success? && c !in g.data ==> r.value.data[c].nbrs == []
    ensures r.Success? && NbrsClosed(g) ==> NbrsClosed(r.value)
    ensures r.Success? && oid.Some? ==> IdToCoord(r.value, oid.value) == Some(c) && CoordToId(r.value, c) == oid
    ensures r.Success? && oid.Some? ==>
      forall d :: d in g.data && d != c && IdToCoord(g, oid.value) != Some(d) ==> r.value.data[d].id == g.data[d].id
    ensures r.Success? && oid.Some? ==>
      forall j :: j != oid.value && CoordToId(g, c) != Some(j) ==> IdToCoord(r.value, j) == IdToCoord(g, j)
    ensures oid.None? ==> r.Success? && r.value.idIndex == g.idIndex
    ensures oid.None? ==> forall d :: d in g.data ==> r.value.data[d].id == g.data[d].id
  {
    var g1 := Place(g, c);
    PlaceKeeps(g, c);
    match oid
    case None => Success(g1)
    case Some(i) =>
      if g1.data[c].id.None? then
        var r := AssignId(g1, c, i);
        SameNbrsClosed(g1, r);
        Success(r)
      else
        match ReassignId(g1, c, i)
        case Failure(f) => Failure(f)
        case Success(r) =>
          SameNbrsClosed(g1, r);
          Success(r)
  }

  /** Adding a vertex that is already present, without an ID, changes nothing. */
  lemma AddVertexIdempotent(g: Graph, c: Coord)
    requires IndexSound(g) && c in g.data
    ensures AddVertex(g, c, None) == Success(g)
  {
    assert g.data[c := g.data[c]] == g.data;
  }

  /**
   Giving an ID to a coordinate that has none takes the ID away from the vertex the index
   named for it; every other vertex keeps its ID.
   */
  lemma AddVertexRevokes(g: Graph, c: Coord, i: int)
    requires IndexSound(g) && (c !in g.data || g.data[c].id.None?)
    ensures AddVertex(g, c, Some(i)).Success?
    ensures var r := AddVertex(g, c, Some(i)).value;
      && (i in g.idIndex ==> CoordToId(r, g.idIndex[i]) == None)
      && (forall d :: d in g.data && d != c && (i !in g.idIndex || d != g.idIndex[i]) ==> r.data[d].id == g.data[d].id)
      && (forall j :: j != i ==> IdToCoord(r, j) == IdToCoord(g, j))
  {
  }

  /**
   Changing the ID of a coordinate drops its old ID from the index; the map data of every
   other vertex is left as it was, even one that carries the new ID.
   */
  lemma AddVertexDropsOldId(g: Graph, c: Coord, i: int)
    requires IndexSound(g) && c in g.data && g.data[c].id.Some?
    requires g.data[c].id.value in g.idIndex && g.data[c].id.value != i
    ensures AddVertex(g, c, Some(i)).Success?
    ensures var r := AddVertex(g, c, Some(i)).value;
      && IdToCoord(r, g.data[c].id.value) == None
      && forall d :: d in g.data && d != c ==> r.data[d].id == g.data[d].id
  {
  }

  /** First assignment keeps the index consistent: the revoked holder no longer claims `i`. */
  lemma AssignIdConsistent(g: Graph, c: Coord, i: int)
    requires Consistent(g) && c in g.data && g.data[c].id.None?
    ensures Consistent(AssignId(g, c, i))
  {
  }

  /** An update keeps the index consistent when no other vertex holds the new ID. */
  lemma ReassignIdConsistent(g: Graph, c: Coord, i: int)
    requires Consistent(g) && c in g.data && g.data[c].id.Some?
    requires i !in g.idIndex || g.idIndex[i] == c
    ensures ReassignId(g, c, i).Success? && Consistent(ReassignId(g, c, i).value)
  {
  }

  /**
   The correspondence between the indexes survives `add_vertex` unless the call re-assigns
   the ID of a coordinate that has one to an ID that another coordinate holds.
   */
  lemma AddVertexKeepsConsistent(g: Graph, c: Coord, oid: Option<int>)
    requires Consistent(g)
    requires oid.Some? && c in g.data && g.data[c].id.Some? ==> oid.value !in g.idIndex || g.idIndex[oid.value] == c
    ensures AddVertex(g, c, oid).Success?
    ensures Consistent(AddVertex(g, c, oid).value)
  {
    var g1 := Place(g, c);
    PlaceKeeps(g, c);
    if oid.Some? {
      var i := oid.value;
      if g1.data[c].id.None? {
        AssignIdConsistent(g1, c, i);
        assert AddVertex(g, c, oid) == Success(AssignId(g1, c, i));
      } else {
        ReassignIdConsistent(g1, c, i);
        assert AddVertex(g, c, oid) == ReassignId(g1, c, i);
      }
    }
  }

  /** A vertex with no neighbours and the given ID. */
  function Bare(id: Option<int>): Entry {
    Entry([], id)
  }

  /** The first documented step: a fresh coordinate takes a fresh ID. */
  lemma FreshIdStep(a: Coord, i: int)
    ensures AddVertex(Empty(), a, Some(i)) == Success(Graph(map[a := Bare(Some(i))], map[i := a]))
  {
    assert Place(Empty(), a) == Graph(map[a := Bare(None)], map[]);
    assert map[a := Bare(None)][a := Bare(Some(i))] == map[a := Bare(Some(i))];
  }

  /** A second coordinate takes the ID the first one holds, and the first one loses it. */
  lemma TakeIdStep(a: Coord, b: Coord, i: int)
    requires a != b
    ensures var g := Graph(map[a := Bare(Some(i))], map[i := a]);
      IndexSound(g) && AddVertex(g, b, Some(i)) == Success(Graph(map[a := Bare(None), b := Bare(Some(i))], map[i := b]))
  {
    var g := Graph(map[a := Bare(Some(i))], map[i := a]);
    var g1 := Graph(map[a := Bare(Some(i)), b := Bare(None)], map[i := a]);
    assert Place(g, b) == g1;
    assert g1.data[b := Bare(Some(i))][a := Bare(None)] == map[a := Bare(None), b := Bare(Some(i))];
    assert g1.idIndex[i := b] == map[i := b];
    assert AddVertex(g, b, Some(i)) == Success(AssignId(g1, b, i));
  }

  /** A coordinate holding ID `i` moves on to ID `j`, and `i` leaves the index. */
  lemma MoveIdStep(a: Coord, b: Coord, i: int, j: int)
    requires a != b
    ensures var g := Graph(map[a := Bare(None), b := Bare(Some(i))], map[i := b]);
      IndexSound(g) && AddVertex(g, b, Some(j)) == Success(Graph(map[a := Bare(None), b := Bare(Some(j))], map[j := b]))
  {
    var g := Graph(map[a := Bare(None), b := Bare(Some(i))], map[i := b]);
    assert Place(g, b) == g;
    assert (g.idIndex - {i})[j := b] == map[j := b];
    assert g.data[b := Bare(Some(j))] == map[a := Bare(None), b := Bare(Some(j))];
    assert AddVertex(g, b, Some(j)) == ReassignId(g, b, j);
  }

  /** A graph in which only `b` holds an ID, and the index names `b` for it, is consistent. */
  lemma HolderConsistent(a: Coord, b: Coord, j: int)
    requires a != b
    ensures Consistent(Graph(map[a := Bare(None), b := Bare(Some(j))], map[j := b]))
  {
  }

  /**
   The documented sequence: ID 1 given to a first vertex and then to a second one moves to
   the second; re-assigning the second vertex ID 2 leaves ID 1 unused.
   */
  lemma AddVertexMovesIdExample()
    ensures var a, b := Coord(52.0, -118.0), Coord(55.0, -120.0);
      var g1 := AddVertex(Empty(), a, Some(1)).value;
      var g2 := AddVertex(g1, b, Some(1)).value;
      var g3 := AddVertex(g2, b, Some(2)).value;
      && CoordToId(g2, a) == None && CoordToId(g2, b) == Some(1)
      && CoordToId(g3, b) == Some(2) && IdToCoord(g3, 1) == None
      && Consistent(g3)
  {
    var a, b := Coord(52.0, -118.0), Coord(55.0, -120.0);
    FreshIdStep(a, 1);
    TakeIdStep(a, b, 1);
    MoveIdStep(a, b, 1, 2);
    HolderConsistent(a, b, 2);
  }

  /** A second coordinate takes a second fresh ID. */
  lemma SecondIdStep(a: Coord, b: Coord)
    requires a != b
    ensures var g := Graph(map[a := Bare(Some(1))], map[1 := a]);
      IndexSound(g) && AddVertex(g, b, Some(2)) == Success(Graph(map[a := Bare(Some(1)), b := Bare(Some(2))], map[1 := a, 2 := b]))
  {
    var g := Graph(map[a := Bare(Some(1))], map[1 := a]);
    var g1 := Graph(map[a := Bare(Some(1)), b := Bare(None)], map[1 := a]);
    assert Place(g, b) == g1;
    assert g1.data[b := Bare(Some(2))] == map[a := Bare(Some(1)), b := Bare(Some(2))];
    assert AddVertex(g, b, Some(2)) == Success(AssignId(g1, b, 2));
  }

  /** The update branch re-assigns `b` the ID `a` holds, and leaves `a` holding it too. */
  lemma StaleUpdateStep(a: Coord, b: Coord)
    requires a != b
    ensures var g := Graph(map[a := Bare(Some(1)), b := Bare(Some(2))], map[1 := a, 2 := b]);
      IndexSound(g) && AddVertex(g, b, Some(1)) == Success(Graph(map[a := Bare(Some(1)), b := Bare(Some(1))], map[1 := b]))
  {
    var g := Graph(map[a := Bare(Some(1)), b := Bare(Some(2))], map[1 := a, 2 := b]);
    assert Place(g, b) == g;
    assert (g.idIndex - {2})[1 := b] == map[1 := b];
    assert g.data[b := Bare(Some(1))] == map[a := Bare(Some(1)), b := Bare(Some(1))];
    assert AddVertex(g, b, Some(1)) == ReassignId(g, b, 1);
  }

  /** `a`, still holding the stale ID 1, moves on to ID 3 and pops 1 from the index. */
  lemma StalePopStep(a: Coord, b: Coord)
    requires a != b
    ensures var g := Graph(map[a := Bare(Some(1)), b := Bare(Some(1))], map[1 := b]);
      IndexSound(g) && AddVertex(g, a, Some(3)) == Success(Graph(map[a := Bare(Some(3)), b := Bare(Some(1))], map[3 := a]))
  {
    var g := Graph(map[a := Bare(Some(1)), b := Bare(Some(1))], map[1 := b]);
    assert Place(g, a) == g;
    assert (g.idIndex - {1})[3 := a] == map[3 := a];
    assert g.data[a := Bare(Some(3))] == map[a := Bare(Some(3)), b := Bare(Some(1))];
    assert AddVertex(g, a, Some(3)) == ReassignId(g, a, 3);
  }

  /**
   The update branch as written: A gets ID 1, B gets ID 2, then B is re-assigned ID 1.
   A still carries ID 1 although the index sends 1 to B; after A moves on to ID 3 the index
   has lost ID 1, and re-assigning B then pops the missing ID and raises `KeyError`.
   */
  lemma StaleIdExample()
    ensures var a, b := Coord(0.0, 0.0), Coord(1.0, 1.0);
      var g1 := AddVertex(Empty(), a, Some(1)).value;
      var g2 := AddVertex(g1, b, Some(2)).value;
      var g3 := AddVertex(g2, b, Some(1)).value;
      var g4 := AddVertex(g3, a, Some(3)).value;
      && CoordToId(g3, a) == Some(1) && IdToCoord(g3, 1) == Some(b)
      && !Consistent(g3)
      && AddVertex(g4, b, Some(4)) == Failure(KeyError(1))
  {
    var a, b := Coord(0.0, 0.0), Coord(1.0, 1.0);
    FreshIdStep(a, 1);
    SecondIdStep(a, b);
    StaleUpdateStep(a, b);
    StalePopStep(a, b);
  }


  /** Taking ID `i` away from the vertex that holds it, and out of the index. */
  function Release(g: Graph, i: int): (r: Graph)
    requires Consistent(g) && i in g.idIndex
    ensures Consistent(r) && r.data.Keys == g.data.Keys && i !in r.idIndex
    ensures forall d :: d in g.data ==> r.data[d].nbrs == g.data[d].nbrs
    ensures forall d :: d in g.data && d != g.idIndex[i] ==> r.data[d].id == g.data[d].id
  {
    var owner := g.idIndex[i];
    g.(data := g.data[owner := g.data[owner].(id := None)], idIndex := g.idIndex - {i})
  }

  /**
   `add_vertex` as the warning in its documentation describes it: an ID given to a vertex is
   taken away from any other vertex holding it, in the update branch as well.
   */
  function AddVertexRevoking(g: Graph, c: Coord, oid: Option<int>): (r: Graph)
    requires Consistent(g)
    ensures Consistent(r)
    ensures r.data.Keys == g.data.Keys + {c}
    ensures forall d :: d in g.data ==> r.data[d].nbrs == g.data[d].nbrs
    ensures c !in g.data ==> r.data[c].nbrs == []
    ensures NbrsClosed(g) ==> NbrsClosed(r)
    ensures oid.Some? ==> IdToCoord(r, oid.value) == Some(c) && CoordToId(r, c) == oid
    ensures oid.Some? ==> forall d :: d in g.data && d != c && IdToCoord(g, oid.value) != Some(d) ==> r.data[d].id == g.data[d].id
    ensures oid.None? ==> r == AddVertex(g, c, None).value
  {
    match oid
    case None => AddVertex(g, c, None).value
    case Some(i) =>
      var g' := if c in g.data && g.data[c].id.Some? && i in g.idIndex && g.idIndex[i] != c then Release(g, i) else g;
      AddVertexKeepsConsistent(g', c, oid);
      SameNbrsClosed(g, g');
      AddVertex(g', c, oid).value
  }


  /** The corrected version agrees with the source whenever the source keeps the indexes consistent. */
  lemma AddVertexRevokingAgrees(g: Graph, c: Coord, oid: Option<int>)
    requires Consistent(g)
    requires oid.Some? && c in g.data && g.data[c].id.Some? ==> oid.value !in g.idIndex || g.idIndex[oid.value] == c
    ensures AddVertex(g, c, oid) == Success(AddVertexRevoking(g, c, oid))
  {
  }

  /** `add_id`: set or replace the ID of an existing vertex; an absent coordinate is ignored. */
  function AddId(g: Graph, c: Coord, i: int): (r: Result<Graph, Fault>)
    requires IndexSound(g)
    ensures c !in g.data ==> r == Success(g)
    ensures r.Success? ==> r.value.data.Keys == g.data.Keys && IndexSound(r.value)
    ensures r.Success? && c in g.data ==> IdToCoord(r.value, i) == Some(c) && CoordToId(r.value, c) == Some(i)
    ensures r.Success? && NbrsClosed(g) ==> NbrsClosed(r.value)
  {
    if c in g.data then AddVertex(g, c, Some(i)) else Success(g)
  }

  /**
   `add_edge`: both ends are resolved (an ID through the index) and, when both are vertices,
   the end is appended to the start's neighbours; otherwise nothing happens. Parallel edges
   are kept.
   */
  function AddEdge(g: Graph, a: Key, b: Key): (r: Graph)
    ensures r.idIndex == g.idIndex && r.data.Keys == g.data.Keys
    ensures forall d :: d in g.data ==> r.data[d].id == g.data[d].id
    ensures !IsVertex(g, a) || !IsVertex(g, b) ==> r == g
    ensures IsVertex(g, a) && IsVertex(g, b) ==>
      var s := Resolve(g, a).value;
      && r.data[s].nbrs == g.data[s].nbrs + [Resolve(g, b).value]
      && forall d :: d in g.data && d != s ==> r.data[d].nbrs == g.data[d].nbrs
    ensures forall x, y :: IsEdge(r, ByCoord(x), ByCoord(y)) <==>
      IsEdge(g, ByCoord(x), ByCoord(y)) || (IsVertex(g, a) && IsVertex(g, b) && Resolve(g, a) == Some(x) && Resolve(g, b) == Some(y))
    ensures WellFormed(g) ==> WellFormed(r)
    ensures Consistent(g) ==> Consistent(r)
  {
    if IsVertex(g, a) && IsVertex(g, b) then
      var s, e := Resolve(g, a).value, Resolve(g, b).value;
      g.(data := g.data[s := g.data[s].(nbrs := g.data[s].nbrs + [e])])
    else g
  }

  /** `neighbours`: a copy of the out-neighbours, or None when the key names no vertex. */
  function Neighbours(g: Graph, k: Key): (r: Option<seq<Coord>>)
    ensures r.None? <==> !IsVertex(g, k)
    ensures r.Some? ==> forall n :: n in r.value <==> IsEdge(g, k, ByCoord(n))
    ensures r.Some? && NbrsClosed(g) ==> forall n :: n in r.value ==> IsVertex(g, ByCoord(n))
    ensures r.Some? ==> r.value == D.Neighbours(Project(g), Resolve(g, k).value)
  {
    if IsVertex(g, k) then Some(g.data[Resolve(g, k).value].nbrs) else None
  }

  /** `ids`: the (ID, coordinates) pairs of the index. */
  function Ids(g: Graph): (r: set<(int, Coord)>)
    ensures forall i, c :: (i, c) in r <==> IdToCoord(g, i) == Some(c)
    ensures Consistent(g) ==> forall i, c :: (i, c) in r <==> CoordToId(g, c) == Some(i)
  {
    set i | i in g.idIndex :: (i, g.idIndex[i])
  }

  /** The plain adjacency graph underneath, on which the searches run. The searches never read the insertion order. */
  function Project(g: Graph): (r: D.Graph<Coord>)
    ensures NbrsClosed(g) ==> D.Closed(r)
    ensures forall x, y :: D.IsEdge(r, x, y) <==> IsEdge(g, ByCoord(x), ByCoord(y))
  {
    D.Graph([], map c | c in g.data :: g.data[c].nbrs)
  }

  /** `Graph(V, E)`: add the vertices in the given order, then the edges; the first failure is returned. */
  function Build(vs: seq<(Coord, Option<int>)>, es: seq<(Key, Key)>): (r: Result<Graph, Fault>)
    ensures r.Success? ==> WellFormed(r.value)
    ensures r.Success? ==> forall x :: x in r.value.data <==> exists k :: 0 <= k < |vs| && vs[k].0 == x
    ensures NoReassignment(Empty(), vs) ==> r.Success?
    ensures r.Success? ==> forall x, y :: IsEdge(r.value, ByCoord(x), ByCoord(y)) <==> Listed(r.value, es, x, y)
  {
    match AddVertices(Empty(), vs)
    case Failure(f) =>
      AddVerticesSucceeds(Empty(), vs);
      Failure(f)
    case Success(g) =>
      AddVerticesKeepsLists(Empty(), vs);
      AddEdgesAdds(g, es);
      SameIndexListed(g, AddEdges(g, es), es);
      Success(AddEdges(g, es))
  }

  function AddVertices(g: Graph, vs: seq<(Coord, Option<int>)>): (r: Result<Graph, Fault>)
    requires WellFormed(g)
    ensures r.Success? ==> WellFormed(r.value)
    ensures r.Success? ==> forall x :: x in r.value.data <==> x in g.data || exists k :: 0 <= k < |vs| && vs[k].0 == x
    decreases |vs|
  {
    if vs == [] then Success(g)
    else
      match AddVertex(g, vs[0].0, vs[0].1)
      case Failure(f) => Failure(f)
      case Success(g') =>
        var r := AddVertices(g', vs[1..]);
        if r.Success? then
          ListedKeysStep(g.data.Keys, g'.data.Keys, r.value.data.Keys, vs);
          r
        else r
  }

  /** The vertex set after the rest of the list, seen from before the first vertex is added. */
  lemma ListedKeysStep(before: set<Coord>, after: set<Coord>, result: set<Coord>, vs: seq<(Coord, Option<int>)>)
    requires vs != [] && after == before + {vs[0].0}
    requires forall x :: x in result <==> x in after || exists k :: 0 <= k < |vs[1..]| && vs[1..][k].0 == x
    ensures forall x :: x in result <==> x in before || exists k :: 0 <= k < |vs| && vs[k].0 == x
  {
    forall x | x in result ensures x in before || exists k :: 0 <= k < |vs| && vs[k].0 == x {
      if x !in after {
        var k :| 0 <= k < |vs[1..]| && vs[1..][k].0 == x;
        assert vs[k + 1].0 == x;
      }
    }
    forall x | exists k :: 0 <= k < |vs| && vs[k].0 == x ensures x in result {
      var k :| 0 <= k < |vs| && vs[k].0 == x;
      if k > 0 {
        assert vs[1..][k - 1].0 == x;
      }
    }
  }

  /**
   Every listed vertex either comes without an ID or is new (neither stored nor listed
   earlier), so no step pops an old ID.
   */
  ghost predicate NoReassignment(g: Graph, vs: seq<(Coord, Option<int>)>) {
    forall k :: 0 <= k < |vs| ==> vs[k].1.None? || (vs[k].0 !in g.data && forall j :: 0 <= j < k ==> vs[j].0 != vs[k].0)
  }

  /** Adding vertices fails only through a re-added vertex whose old ID is popped: without one, it succeeds. */
  lemma {:induction false} AddVerticesSucceeds(g: Graph, vs: seq<(Coord, Option<int>)>)
    requires WellFormed(g)
    ensures NoReassignment(g, vs) ==> AddVertices(g, vs).Success?
    decreases |vs|
  {
    if vs != [] && NoReassignment(g, vs) {
      var g' := AddVertex(g, vs[0].0, vs[0].1).value;
      assert NoReassignment(g', vs[1..]) by {
        forall k | 0 <= k < |vs[1..]|
          ensures vs[1..][k].1.None? || (vs[1..][k].0 !in g'.data && forall j :: 0 <= j < k ==> vs[1..][j].0 != vs[1..][k].0)
        {
          assert vs[1..][k] == vs[k + 1];
          if vs[k + 1].1.Some? {
            assert vs[0].0 != vs[k + 1].0;
            forall j | 0 <= j < k ensures vs[1..][j].0 != vs[1..][k].0 {
              assert vs[1..][j] == vs[j + 1];
            }
          }
        }
      }
      AddVerticesSucceeds(g', vs[1..]);
    }
  }

  /** Adding vertices adds no edge: old lists are kept and every new vertex starts with none. */
  lemma {:induction false} AddVerticesKeepsLists(g: Graph, vs: seq<(Coord, Option<int>)>)
    requires WellFormed(g)
    ensures var r := AddVertices(g, vs);
      r.Success? ==> forall x :: x in r.value.data ==> r.value.data[x].nbrs == if x in g.data then g.data[x].nbrs else []
    decreases |vs|
  {
    if vs != [] && AddVertex(g, vs[0].0, vs[0].1).Success? {
      AddVerticesKeepsLists(AddVertex(g, vs[0].0, vs[0].1).value, vs[1..]);
    }
  }

  /** Some edge of the list names `x` then `y`, both resolving to vertices of `g`. */
  ghost predicate Listed(g: Graph, es: seq<(Key, Key)>, x: Coord, y: Coord) {
    exists k :: 0 <= k < |es| && IsVertex(g, es[k].0) && IsVertex(g, es[k].1) && Resolve(g, es[k].0) == Some(x) && Resolve(g, es[k].1) == Some(y)
  }

  /** Whether a listed edge resolves depends only on the vertex set and the ID index. */
  lemma SameIndexListed(g: Graph, h: Graph, es: seq<(Key, Key)>)
    requires h.data.Keys == g.data.Keys && h.idIndex == g.idIndex
    ensures forall x, y :: Listed(g, es, x, y) <==> Listed(h, es, x, y)
  {
    assert forall k :: IsVertex(g, k) == IsVertex(h, k) && Resolve(g, k) == Resolve(h, k);
  }

  function AddEdges(g: Graph, es: seq<(Key, Key)>): (r: Graph)
    requires WellFormed(g)
    ensures WellFormed(r) && r.data.Keys == g.data.Keys && r.idIndex == g.idIndex
    decreases |es|
  {
    if es == [] then g else AddEdges(AddEdge(g, es[0].0, es[0].1), es[1..])
  }

  /** The first edge of the list, resolved against `g`, is `x` to `y`. */
  ghost predicate FirstListed(g: Graph, es: seq<(Key, Key)>, x: Coord, y: Coord) {
    es != [] && IsVertex(g, es[0].0) && IsVertex(g, es[0].1) && Resolve(g, es[0].0) == Some(x) && Resolve(g, es[0].1) == Some(y)
  }

  /** A listed edge is the first one or listed in the rest. */
  lemma ListedCons(g: Graph, es: seq<(Key, Key)>, x: Coord, y: Coord)
    requires es != []
    ensures Listed(g, es, x, y) <==> FirstListed(g, es, x, y) || Listed(g, es[1..], x, y)
  {
    if Listed(g, es, x, y) {
      var k :| 0 <= k < |es| && IsVertex(g, es[k].0) && IsVertex(g, es[k].1) && Resolve(g, es[k].0) == Some(x) && Resolve(g, es[k].1) == Some(y);
      if k > 0 {
        assert es[1..][k - 1] == es[k];
      }
    }
    if Listed(g, es[1..], x, y) {
      var k :| 0 <= k < |es[1..]| && IsVertex(g, es[1..][k].0) && IsVertex(g, es[1..][k].1) && Resolve(g, es[1..][k].0) == Some(x) && Resolve(g, es[1..][k].1) == Some(y);
      assert es[1..][k] == es[k + 1];
    }
    if FirstListed(g, es, x, y) {
      assert 0 < |es|;
    }
  }

  /** `AddEdgesAdds` at one pair of coordinates. */
  lemma {:induction false} AddEdgesAddsAt(g: Graph, es: seq<(Key, Key)>, x: Coord, y: Coord)
    requires WellFormed(g)
    ensures IsEdge(AddEdges(g, es), ByCoord(x), ByCoord(y)) <==> IsEdge(g, ByCoord(x), ByCoord(y)) || Listed(g, es, x, y)
    decreases |es|
  {
    if es != [] {
      var g1 := AddEdge(g, es[0].0, es[0].1);
      AddEdgesAddsAt(g1, es[1..], x, y);
      ListedCons(g, es, x, y);
      SameIndexListed(g, g1, es[1..]);
    }
  }

  /** Adding the edges in turn adds exactly the listed edges whose ends name vertices; none is lost. */
  lemma AddEdgesAdds(g: Graph, es: seq<(Key, Key)>)
    requires WellFormed(g)
    ensures forall x, y {:trigger IsEdge(AddEdges(g, es), ByCoord(x), ByCoord(y))} :: IsEdge(AddEdges(g, es), ByCoord(x), ByCoord(y)) <==> IsEdge(g, ByCoord(x), ByCoord(y)) || Listed(g, es, x, y)
  {
    forall x, y {:trigger IsEdge(AddEdges(g, es), ByCoord(x), ByCoord(y))} ensures IsEdge(AddEdges(g, es), ByCoord(x), ByCoord(y)) <==> IsEdge(g, ByCoord(x), ByCoord(y)) || Listed(g, es, x, y) {
      AddEdgesAddsAt(g, es, x, y);
    }
  }

  /**
   What both searches return from the vertex `s`: `s` is its own predecessor, every other
   entry's predecessor is an entry with an edge to it, and the entries are exactly the
   vertices reachable from `s`.
   */
  ghost predicate SearchTree(g: Graph, s: Coord, reached: map<Coord, Coord>) {
    && s in reached && reached[s] == s
    && (forall u :: u in reached <==> S.Reachable(Project(g), s, u))
    && forall u :: u in reached && u != s ==> reached[u] in reached && IsEdge(g, ByCoord(reached[u]), ByCoord(u))
  }

  /** `depth` gives each reached vertex its level in the tree, and no walk from `s` is shorter. */
  ghost predicate LeastHops(g: Graph, s: Coord, reached: map<Coord, Coord>, depth: map<Coord, nat>)
    requires SearchTree(g, s, reached)
  {
    && depth.Keys == reached.Keys && depth[s] == 0
    && (forall u :: u in reached && u != s ==> depth[u] == depth[reached[u]] + 1)
    && forall w, u :: S.WalkFromTo(Project(g), w, s, u) ==> u in depth && depth[u] <= |w| - 1
  }

  /**
   `breadth_first_search` (which pops a stack) from a vertex named by coordinates or ID:
   every vertex reachable from it, each with the predecessor it was found from. A start that
   names no vertex leads to iterating `None`, a `TypeError`.
   */
  method BreadthFirstSearch(g: Graph, start: Key) returns (res: Result<map<Coord, Coord>, Fault>)
    requires NbrsClosed(g)
    ensures res.Failure? <==> !IsVertex(g, start)
    ensures res.Failure? ==> res.error == TypeError
    ensures res.Success? ==> IsVertex(g, start) && SearchTree(g, Resolve(g, start).value, res.value)
  {
    if !IsVertex(g, start) {
      return Failure(TypeError);
    }
    var reached, _, _ := S.BreadthFirstSearch(Project(g), Resolve(g, start).value);
    res := Success(reached);
  }

  /**
   `depth_first_search` (which pops a queue) from a vertex named by coordinates or ID: the
   same vertices and predecessors, and every vertex is found at its least number of hops.
   */
  method DepthFirstSearch(g: Graph, start: Key) returns (res: Result<map<Coord, Coord>, Fault>, ghost depth: map<Coord, nat>)
    requires NbrsClosed(g)
    ensures res.Failure? <==> !IsVertex(g, start)
    ensures res.Failure? ==> res.error == TypeError
    ensures res.Success? ==> IsVertex(g, start) && SearchTree(g, Resolve(g, start).value, res.value)
    ensures res.Success? ==> IsVertex(g, start) && LeastHops(g, Resolve(g, start).value, res.value, depth)
  {
    if !IsVertex(g, start) {
      return Failure(TypeError), map[];
    }
    var s := Resolve(g, start).value;
    var reached, _, d := S.DepthFirstSearch(Project(g), s);
    res, depth := Success(reached), d;
  }
}
