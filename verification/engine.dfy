/** The variant-independent graph engine: node and edge mutation, clearing,
    and the recomputation of the calculated node fields. A variant supplies
    the couple canonicalisation and the neighbour rule; nothing else. */
module Engine {
  import opened Wrappers
  import opened Stores
  import opened Validation
  import opened Degrees

  /** The two customisation points of a concrete graph class. `neighbours`
      receives the current couple keys and a node identifier. */
  datatype Variant = Variant(canon: Couple -> Couple, neighbours: (set<Couple>, Id) -> set<Id>)

  /** Conditions raised by the engine and its bulk loaders. `KeywordClash`
      is the error Python raises when an attribute dictionary cannot be
      expanded into keyword arguments: a key that is not a string, or one
      that names an argument the caller already passes. */
  datatype Error = Invalid(reason: ValidationError) | NodeAlreadyExists | EdgeAlreadyExists | KeywordClash

  /** A canonicalisation may only reorder the two endpoints, and a canonical
      couple is its own canonical form. */
  ghost predicate ValidCanon(canon: Couple -> Couple) {
    forall c: Couple :: (canon(c) == c || canon(c) == (c.1, c.0)) && canon(canon(c)) == canon(c)
  }

  /** Every couple key is in canonical form. */
  predicate Canonical(v: Variant, g: Graph) {
    forall c | c in g.edges :: v.canon(c) == c
  }

  /** The parallel edges stored under `c`, or none. */
  function InnerOf(edges: Edges, c: Couple): Multiples {
    if c in edges then edges[c] else map[]
  }

  /* ---------------------------------------------------------------- recompute */

  /** Both calculated fields of every node agree with the edge store. */
  ghost predicate Recomputed(v: Variant, g: Graph) {
    forall n | n in g.nodes ::
      && g.nodes[n].degree == Some(Degree(g.edges, n))
      && g.nodes[n].neighbors == Some(v.neighbours(g.edges.Keys, n))
  }

  /** `calc_degree` then `calc_neighbors`. Both reset the field on every node
      before filling it, so stale values never survive. */
  ghost function Recompute(v: Variant, g: Graph): (r: Graph)
    requires Closed(g)
    ensures r.edges == g.edges
    ensures r.nodes.Keys == g.nodes.Keys
    ensures forall n | n in r.nodes :: r.nodes[n].attrs == g.nodes[n].attrs
    ensures Recomputed(v, r)
  {
    Graph(map n | n in g.nodes ::
            NodeRec(g.nodes[n].attrs, Some(Degree(g.edges, n)), Some(v.neighbours(g.edges.Keys, n))),
          g.edges)
  }

  /** What the `recalculate_calculated_attributes` flag does at the end of a
      mutation. */
  ghost function Settle(v: Variant, g: Graph, recalc: bool): (r: Graph)
    requires recalc ==> Closed(g)
    ensures r.edges == g.edges
    ensures r.nodes.Keys == g.nodes.Keys
    ensures forall n | n in r.nodes :: r.nodes[n].attrs == g.nodes[n].attrs
    ensures recalc ==> Recomputed(v, r)
    ensures !recalc ==> r == g
  {
    if recalc then Recompute(v, g) else g
  }

  /** The recomputed graph depends only on the edge store and the ordinary
      attributes: whatever the calculated fields held before is irrelevant. */
  lemma {:induction false} RecomputeForgetsCalculatedFields(v: Variant, g1: Graph, g2: Graph)
    requires Closed(g1) && Closed(g2)
    requires g1.edges == g2.edges
    requires g1.nodes.Keys == g2.nodes.Keys
    requires forall n | n in g1.nodes :: g1.nodes[n].attrs == g2.nodes[n].attrs
    ensures Recompute(v, g1) == Recompute(v, g2)
  {
    var r1 := Recompute(v, g1);
    var r2 := Recompute(v, g2);
    assert r1.nodes == r2.nodes;
  }

  /** Recomputing twice is recomputing once. */
  lemma {:induction false} RecomputeIdempotent(v: Variant, g: Graph)
    requires Closed(g)
    ensures Closed(Recompute(v, g))
    ensures Recompute(v, Recompute(v, g)) == Recompute(v, g)
  {
    RecomputeForgetsCalculatedFields(v, Recompute(v, g), g);
  }

  /** A recomputed graph is a fixed point of recomputation. */
  lemma {:induction false} RecomputedIsFixedPoint(v: Variant, g: Graph)
    requires Closed(g)
    ensures Recomputed(v, g) <==> Recompute(v, g) == g
  {
    var r := Recompute(v, g);
    if Recomputed(v, g) {
      forall n | n in g.nodes ensures r.nodes[n] == g.nodes[n] {
      }
      assert r.nodes == g.nodes;
    }
  }

  /* ------------------------------------------------------------------ nodes */

  /** `add_node`: stores `attrs` under the given identifier, or under the
      generated one when none is given. An existing node is an error unless
      `replace` is set; a replaced node keeps its calculated fields and gets
      the new attributes in place of the old ones. Nothing is recomputed. */
  function AddNode(g: Graph, identifier: Option<Id>, generated: Id, replace: bool, attrs: Attrs)
    : (r: Result<(Graph, Id), Error>)
    ensures var id := identifier.GetOr(generated);
      && (r.Failure? <==> id in g.nodes && !replace)
      && (r.Failure? ==> r.error == NodeAlreadyExists)
      && (r.Success? ==>
           var h := r.value.0;
           && r.value.1 == id
           && h.edges == g.edges
           && h.nodes.Keys == g.nodes.Keys + {id}
           && h.nodes[id].attrs == attrs
           && (id in g.nodes ==>
                 h.nodes[id].degree == g.nodes[id].degree && h.nodes[id].neighbors == g.nodes[id].neighbors)
           && (id !in g.nodes ==> h.nodes[id].degree.None? && h.nodes[id].neighbors.None?)
           && forall n | n in g.nodes && n != id :: h.nodes[n] == g.nodes[n])
  {
    var id := identifier.GetOr(generated);
    if id in g.nodes then
      if !replace then Failure(NodeAlreadyExists)
      else Success((g.(nodes := g.nodes[id := NodeRec(attrs, g.nodes[id].degree, g.nodes[id].neighbors)]), id))
    else
      Success((g.(nodes := g.nodes[id := NodeRec(attrs, None, None)]), id))
  }

  /** An automatically identified node never collides when the generated
      identifier is unused. */
  lemma {:induction false} AddNodeGeneratedSucceeds(g: Graph, generated: Id, replace: bool, attrs: Attrs)
    requires generated !in g.nodes
    ensures AddNode(g, None, generated, replace, attrs).Success?
    ensures AddNode(g, None, generated, replace, attrs).value.1 == generated
    ensures Size(AddNode(g, None, generated, replace, attrs).value.0) == Size(g) + 1
  {
  }

  /** `add_node(n, replace=False)` with `NodeAlreadyExists` swallowed, as
      `add_edge` does for missing endpoints. */
  function EnsureNode(g: Graph, n: Id): (r: Graph)
    ensures r.edges == g.edges
    ensures r.nodes.Keys == g.nodes.Keys + {n}
    ensures forall m | m in g.nodes :: r.nodes[m] == g.nodes[m]
    ensures n !in g.nodes ==> r.nodes[n] == BareNode
  {
    match AddNode(g, Some(n), n, false, map[])
    case Success(p) => p.0
    case Failure(_) => g
  }

  /** The store left by `del_node` before recomputation: every couple that
      mentions `id` in either position is gone with all its parallel edges,
      then the node itself. */
  function Isolate(g: Graph, id: Id): (r: Graph)
    ensures r.nodes == g.nodes - {id}
    ensures forall c | c in r.edges :: !Touches(c, id)
    ensures forall c | c in g.edges && !Touches(c, id) :: c in r.edges && r.edges[c] == g.edges[c]
    ensures r.edges.Keys <= g.edges.Keys
  {
    Graph(g.nodes - {id}, map c | c in g.edges && !Touches(c, id) :: g.edges[c])
  }

  /** `del_node`. The node must exist and every couple key must already be
      canonical, because each incident couple is deleted through `del_edge`. */
  ghost function DelNode(v: Variant, g: Graph, id: Id, recalc: bool): (r: Graph)
    requires id in g.nodes
    requires Canonical(v, g)
    requires recalc ==> Closed(Isolate(g, id))
    ensures id !in r.nodes
    ensures r.nodes.Keys == g.nodes.Keys - {id}
    ensures forall c | c in r.edges :: !Touches(c, id)
    ensures forall c | c in g.edges && !Touches(c, id) :: c in r.edges && r.edges[c] == g.edges[c]
    ensures forall n | n in r.nodes :: r.nodes[n].attrs == g.nodes[n].attrs
    ensures !recalc ==> forall n | n in r.nodes :: r.nodes[n] == g.nodes[n]
    ensures recalc ==> Recomputed(v, r)
  {
    Settle(v, Isolate(g, id), recalc)
  }

  /** Deleting a node keeps endpoint closure. */
  lemma {:induction false} DelNodeKeepsClosed(v: Variant, g: Graph, id: Id, recalc: bool)
    requires id in g.nodes && Canonical(v, g) && Closed(g)
    ensures Closed(Isolate(g, id))
    ensures Closed(DelNode(v, g, id, recalc))
  {
  }

  /** Adding a node under an unused identifier and deleting it again gives
      back the original graph. */
  lemma {:induction false} AddNodeThenDelNode(v: Variant, g: Graph, id: Id, attrs: Attrs)
    requires id !in g.nodes
    requires Canonical(v, g)
    requires forall c | c in g.edges :: !Touches(c, id)
    ensures AddNode(g, Some(id), id, false, attrs).Success?
    ensures var h := AddNode(g, Some(id), id, false, attrs).value.0;
      id in h.nodes && Canonical(v, h) && DelNode(v, h, id, false) == g
  {
    var h := AddNode(g, Some(id), id, false, attrs).value.0;
    var d := DelNode(v, h, id, false);
    assert d.nodes == g.nodes;
    assert d.edges == g.edges;
  }

  /** `clear_nodes`: the node store is emptied and the edge store is left
      as it is. */
  function ClearNodes(g: Graph): (r: Graph)
    ensures r.nodes == map[]
    ensures r.edges == g.edges
  {
    g.(nodes := map[])
  }

  /** Because `clear_nodes` does not cascade, it breaks endpoint closure on
      every graph that has an edge. */
  lemma {:induction false} ClearNodesBreaksClosure(g: Graph)
    requires g.edges != map[]
    ensures !Closed(ClearNodes(g))
  {
    var c :| c in g.edges;
    assert c in ClearNodes(g).edges;
  }

  /* ------------------------------------------------------------------ edges */

  /** An edge with this identifier is already stored under this couple. */
  predicate EdgeExists(g: Graph, couple: Couple, id: Id) {
    couple in g.edges && id in g.edges[couple]
  }

  /** The edge store with `attrs` written under identifier `id` of couple
      `c`, creating the couple when it is absent. */
  function Put(edges: Edges, c: Couple, id: Id, attrs: Attrs): (e: Edges)
    ensures e.Keys == edges.Keys + {c}
    ensures e[c].Keys == InnerOf(edges, c).Keys + {id}
    ensures e[c][id] == attrs
    ensures forall x | x in InnerOf(edges, c) && x != id :: e[c][x] == InnerOf(edges, c)[x]
    ensures forall d | d in edges && d != c :: e[d] == edges[d]
  {
    edges[c := InnerOf(edges, c)[id := attrs]]
  }

  /** The stores after `add_edge` has passed its existence check, before
      recomputation: the edge is (re)written under its canonical couple, and
      with `addMissing` both endpoints are created if absent. */
  function Insert(v: Variant, g: Graph, l: Id, r: Id, id: Id, attrs: Attrs, addMissing: bool): (h: Graph)
    ensures var c := v.canon((l, r));
      && h.edges.Keys == g.edges.Keys + {c}
      && h.edges[c].Keys == InnerOf(g.edges, c).Keys + {id}
      && h.edges[c][id] == attrs
      && (forall e | e in InnerOf(g.edges, c) && e != id :: h.edges[c][e] == InnerOf(g.edges, c)[e])
      && (forall d | d in g.edges && d != c :: h.edges[d] == g.edges[d])
    ensures addMissing ==> h.nodes.Keys == g.nodes.Keys + {l, r}
    ensures !addMissing ==> h.nodes == g.nodes
    ensures forall n | n in g.nodes :: h.nodes[n] == g.nodes[n]
    ensures forall n | n in h.nodes && n !in g.nodes :: h.nodes[n] == BareNode
  {
    var c := v.canon((l, r));
    var g1 := g.(edges := Put(g.edges, c, id, attrs));
    if addMissing then EnsureNode(EnsureNode(g1, l), r) else g1
  }

  /** `add_edge`. The edge identifier is the given one or the generated one.
      An existing (couple, identifier) pair is an error, raised before any
      change, unless `replace` is set. Recomputation, when asked for, needs
      every endpoint to be a node afterwards. */
  ghost function AddEdge(
    v: Variant, g: Graph, l: Id, r: Id, identifier: Option<Id>, generated: Id,
    replace: bool, addMissing: bool, recalc: bool, attrs: Attrs): (res: Result<(Graph, Id), Error>)
    requires recalc && !(EdgeExists(g, v.canon((l, r)), identifier.GetOr(generated)) && !replace)
      ==> Closed(Insert(v, g, l, r, identifier.GetOr(generated), attrs, addMissing))
    ensures var c := v.canon((l, r));
      var id := identifier.GetOr(generated);
      && (res.Failure? <==> EdgeExists(g, c, id) && !replace)
      && (res.Failure? ==> res.error == EdgeAlreadyExists)
      && (res.Success? ==>
           var h := res.value.0;
           && res.value.1 == id
           && h.edges.Keys == g.edges.Keys + {c}
           && h.edges[c].Keys == InnerOf(g.edges, c).Keys + {id}
           && h.edges[c][id] == attrs
           && (forall e | e in InnerOf(g.edges, c) && e != id :: h.edges[c][e] == InnerOf(g.edges, c)[e])
           && (forall d | d in g.edges && d != c :: h.edges[d] == g.edges[d])
           && (addMissing ==> h.nodes.Keys == g.nodes.Keys + {l, r})
           && (!addMissing ==> h.nodes.Keys == g.nodes.Keys)
           && (forall n | n in g.nodes :: h.nodes[n].attrs == g.nodes[n].attrs)
           && (!recalc ==> forall n | n in g.nodes :: h.nodes[n] == g.nodes[n])
           && (recalc ==> Recomputed(v, h)))
  {
    var c := v.canon((l, r));
    var id := identifier.GetOr(generated);
    if EdgeExists(g, c, id) && !replace then Failure(EdgeAlreadyExists)
    else
      var h := Insert(v, g, l, r, id, attrs, addMissing);
      var s := Settle(v, h, recalc);
      assert s.edges == h.edges;
      Success((s, id))
  }

  /** With missing endpoints added, `add_edge` keeps endpoint closure, for
      any canonicalisation that only reorders endpoints. */
  lemma {:induction false} InsertKeepsClosed(v: Variant, g: Graph, l: Id, r: Id, id: Id, attrs: Attrs)
    requires ValidCanon(v.canon)
    requires Closed(g)
    ensures Closed(Insert(v, g, l, r, id, attrs, true))
  {
    var c := v.canon((l, r));
    assert c == (l, r) || c == (r, l);
  }

  /** `add_edge` keeps every couple key canonical. */
  lemma {:induction false} InsertKeepsCanonical(v: Variant, g: Graph, l: Id, r: Id, id: Id, attrs: Attrs, addMissing: bool)
    requires ValidCanon(v.canon)
    requires Canonical(v, g)
    ensures Canonical(v, Insert(v, g, l, r, id, attrs, addMissing))
  {
    var c := v.canon((l, r));
    assert v.canon(v.canon((l, r))) == c;
  }

  /** Adding one new parallel edge raises the degree of each node by the
      number of endpoint positions it holds in that couple, and leaves every
      other degree alone. */
  lemma {:induction false} InsertDegree(
    v: Variant, g: Graph, l: Id, r: Id, id: Id, attrs: Attrs, addMissing: bool, n: Id)
    requires !EdgeExists(g, v.canon((l, r)), id)
    ensures Degree(Insert(v, g, l, r, id, attrs, addMissing).edges, n)
         == Degree(g.edges, n) + Incidence(v.canon((l, r)), n)
  {
    var c := v.canon((l, r));
    var m := InnerOf(g.edges, c)[id := attrs];
    var a := |InnerOf(g.edges, c)|;
    var k := Incidence(c, n);
    SetCoupleDegree(g.edges, c, m, n);
    assert |m| == a + 1;
    assert (if c in g.edges then Share(g.edges, c, n) else 0) == a * k;
    assert |m| * k == a * k + k by { MultiplyOneMore(a, k); }
    assert Insert(v, g, l, r, id, attrs, addMissing).edges == Put(g.edges, c, id, attrs);
    assert Put(g.edges, c, id, attrs) == g.edges[c := m];
  }

  lemma {:induction false} MultiplyOneMore(a: nat, k: nat)
    ensures (a + 1) * k == a * k + k
  {
  }

  /** Through the public operation: after `add_edge` of a new parallel edge
      with recomputation, each node's degree has grown by the number of
      endpoint positions it holds in the couple. */
  lemma {:induction false} AddEdgeRaisesDegree(
    v: Variant, g: Graph, l: Id, r: Id, id: Id, attrs: Attrs, addMissing: bool, n: Id)
    returns (h: Graph)
    requires !EdgeExists(g, v.canon((l, r)), id)
    requires Closed(Insert(v, g, l, r, id, attrs, addMissing))
    requires n in g.nodes
    ensures AddEdge(v, g, l, r, Some(id), id, false, addMissing, true, attrs) == Success((h, id))
    ensures n in h.nodes && h.nodes[n].degree.Some?
    ensures h.nodes[n].degree.value == Degree(g.edges, n) + Incidence(v.canon((l, r)), n)
  {
    InsertDegree(v, g, l, r, id, attrs, addMissing, n);
    AddEdgeRecomputesInsert(v, g, l, r, id, attrs, addMissing);
    h := AddEdge(v, g, l, r, Some(id), id, false, addMissing, true, attrs).value.0;
  }

  /** `add_edge` of a new parallel edge with recomputation is the insertion
      followed by the recomputation pass. */
  lemma {:induction false} AddEdgeRecomputesInsert(v: Variant, g: Graph, l: Id, r: Id, id: Id, attrs: Attrs, addMissing: bool)
    requires !EdgeExists(g, v.canon((l, r)), id)
    requires Closed(Insert(v, g, l, r, id, attrs, addMissing))
    ensures AddEdge(v, g, l, r, Some(id), id, false, addMissing, true, attrs).Success?
    ensures AddEdge(v, g, l, r, Some(id), id, false, addMissing, true, attrs).value.0
         == Recompute(v, Insert(v, g, l, r, id, attrs, addMissing))
  {
  }

  /** The stores left by `del_edge` before recomputation: without an
      identifier the whole couple goes; with one, only that parallel edge
      goes and the couple key stays, even when nothing is left under it. */
  function Detach(v: Variant, g: Graph, l: Id, r: Id, identifier: Option<Id>): (h: Graph)
    requires v.canon((l, r)) in g.edges
    requires identifier.Some? ==> identifier.value in g.edges[v.canon((l, r))]
    ensures var c := v.canon((l, r));
      && h.nodes == g.nodes
      && (forall d | d in g.edges && d != c :: d in h.edges && h.edges[d] == g.edges[d])
      && (identifier.None? ==> h.edges.Keys == g.edges.Keys - {c})
      && (identifier.Some? ==>
            && h.edges.Keys == g.edges.Keys
            && h.edges[c].Keys == g.edges[c].Keys - {identifier.value}
            && forall e | e in h.edges[c] :: h.edges[c][e] == g.edges[c][e])
  {
    var c := v.canon((l, r));
    match identifier
    case None => g.(edges := g.edges - {c})
    case Some(id) => g.(edges := g.edges[c := g.edges[c] - {id}])
  }

  /** `del_edge`: the couple (or the one identified edge in it) must exist. */
  ghost function DelEdge(v: Variant, g: Graph, l: Id, r: Id, identifier: Option<Id>, recalc: bool): (h: Graph)
    requires v.canon((l, r)) in g.edges
    requires identifier.Some? ==> identifier.value in g.edges[v.canon((l, r))]
    requires recalc ==> Closed(Detach(v, g, l, r, identifier))
    ensures var c := v.canon((l, r));
      && h.nodes.Keys == g.nodes.Keys
      && (forall n | n in h.nodes :: h.nodes[n].attrs == g.nodes[n].attrs)
      && (forall d | d in g.edges && d != c :: d in h.edges && h.edges[d] == g.edges[d])
      && (identifier.None? ==> c !in h.edges && h.edges.Keys == g.edges.Keys - {c})
      && (identifier.Some? ==>
            && h.edges.Keys == g.edges.Keys
            && h.edges[c].Keys == g.edges[c].Keys - {identifier.value})
      && (!recalc ==> h.nodes == g.nodes)
      && (recalc ==> Recomputed(v, h))
  {
    Settle(v, Detach(v, g, l, r, identifier), recalc)
  }

  /** Deleting an edge keeps endpoint closure. */
  lemma {:induction false} DetachKeepsClosed(v: Variant, g: Graph, l: Id, r: Id, identifier: Option<Id>)
    requires Closed(g)
    requires v.canon((l, r)) in g.edges
    requires identifier.Some? ==> identifier.value in g.edges[v.canon((l, r))]
    ensures Closed(Detach(v, g, l, r, identifier))
  {
  }

  /** Adding a new parallel edge to an existing couple and deleting it by
      its identifier gives back the original graph. */
  lemma {:induction false} AddThenDelEdgeRestores(v: Variant, g: Graph, l: Id, r: Id, id: Id, attrs: Attrs)
    requires v.canon((l, r)) in g.edges
    requires id !in g.edges[v.canon((l, r))]
    ensures var h := AddEdge(v, g, l, r, Some(id), id, false, false, false, attrs).value.0;
      && v.canon((l, r)) in h.edges && id in h.edges[v.canon((l, r))]
      && DelEdge(v, h, l, r, Some(id), false) == g
  {
    var c := v.canon((l, r));
    var h := AddEdge(v, g, l, r, Some(id), id, false, false, false, attrs).value.0;
    var d := DelEdge(v, h, l, r, Some(id), false);
    assert d.edges[c] == g.edges[c];
    assert d.edges == g.edges;
  }

  /** Adding the first edge of a couple and deleting it by its identifier
      does not give back the original graph: an empty couple stays behind. */
  lemma {:induction false} AddThenDelEdgeLeavesEmptyCouple(v: Variant, g: Graph, l: Id, r: Id, id: Id, attrs: Attrs)
    requires v.canon((l, r)) !in g.edges
    ensures var h := AddEdge(v, g, l, r, Some(id), id, false, false, false, attrs).value.0;
      && v.canon((l, r)) in h.edges && id in h.edges[v.canon((l, r))]
      && var d := DelEdge(v, h, l, r, Some(id), false);
         && v.canon((l, r)) in d.edges
         && d.edges[v.canon((l, r))] == map[]
         && d != g
  {
  }

  /** Deleting the whole couple after adding its first edge does give back
      the original graph. */
  lemma {:induction false} AddThenDelCoupleRestores(v: Variant, g: Graph, l: Id, r: Id, id: Id, attrs: Attrs)
    requires v.canon((l, r)) !in g.edges
    ensures var h := AddEdge(v, g, l, r, Some(id), id, false, false, false, attrs).value.0;
      v.canon((l, r)) in h.edges && DelEdge(v, h, l, r, None, false) == g
  {
    var h := AddEdge(v, g, l, r, Some(id), id, false, false, false, attrs).value.0;
    var d := DelEdge(v, h, l, r, None, false);
    assert d.edges == g.edges;
  }

  /** `clear_edges`: the edge store is emptied and every node gets degree 0
      and no neighbours. */
  function ClearEdges(g: Graph): (r: Graph)
    ensures r.edges == map[]
    ensures r.nodes.Keys == g.nodes.Keys
    ensures forall n | n in r.nodes ::
      r.nodes[n] == NodeRec(g.nodes[n].attrs, Some(0), Some({}))
  {
    Graph(map n | n in g.nodes :: NodeRec(g.nodes[n].attrs, Some(0), Some({})), map[])
  }

  /** Unlike `clear_nodes`, `clear_edges` leaves a consistent graph: it is
      exactly the recomputation of the graph without edges, for any neighbour
      rule that gives nobody a neighbour when there is no couple. */
  lemma {:induction false} ClearEdgesIsRecompute(v: Variant, g: Graph)
    requires forall n: Id :: v.neighbours({}, n) == {}
    ensures Closed(ClearEdges(g))
    ensures ClearEdges(g) == Recompute(v, g.(edges := map[]))
  {
    var e: Edges := map[];
    forall n: Id ensures Degree(e, n) == 0 {
      IsolatedDegreeZero(e, n);
    }
    var a := ClearEdges(g);
    var b := Recompute(v, g.(edges := map[]));
    assert a.nodes == b.nodes;
  }
}
