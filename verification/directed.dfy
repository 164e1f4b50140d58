/** The directed graph class: couples keep the orientation they are given,
    a node's neighbours are its successors, and `describe` reports the
    counts and the structural classification after a fresh recomputation. */
module Directed {
  import opened Wrappers
  import opened Stores
  import opened Degrees
  import opened Structure
  import opened Engine

  /** `_couple_representation`: a couple is stored as given. */
  function Orient(c: Couple): Couple {
    c
  }

  /** The right ends of the couples that start at `n`. */
  function Successors(keys: set<Couple>, n: Id): set<Id> {
    set c | c in keys && c.0 == n :: c.1
  }

  /** `x` follows `n` exactly when the couple from `n` to `x` is a key. */
  lemma {:induction false} SuccessorsMember(keys: set<Couple>, n: Id)
    ensures forall x :: x in Successors(keys, n) <==> (n, x) in keys
  {
    forall x | x in Successors(keys, n) ensures (n, x) in keys {
      var c :| c in keys && c.0 == n && c.1 == x;
      assert c == (n, x);
    }
  }

  /** The engine instantiated for directed graphs. */
  const Dir: Variant := Variant(Orient, Successors)

  /** Orientation is a valid canonicalisation, every store is canonical
      for it, and the two orientations of a couple between different nodes
      are different couples. */
  lemma {:induction false} OrientKeepsDirection(a: Id, b: Id)
    ensures ValidCanon(Dir.canon)
    ensures forall g: Graph :: Canonical(Dir, g)
    ensures a != b ==> Dir.canon((a, b)) != Dir.canon((b, a))
  {
  }

  /** Storing an edge from `a` to `b` and one from `b` to `a` fills two
      separate couples, each with its own parallel edge. */
  lemma {:induction false} OppositeEdgesStaySeparate(
    g: Graph, a: Id, b: Id, e1: Id, e2: Id, x1: Attrs, x2: Attrs)
    requires a != b
    ensures var h := Insert(Dir, Insert(Dir, g, a, b, e1, x1, true), b, a, e2, x2, true);
      && (a, b) in h.edges && (b, a) in h.edges
      && e1 in h.edges[(a, b)] && h.edges[(a, b)][e1] == x1
      && e2 in h.edges[(b, a)] && h.edges[(b, a)][e2] == x2
      && h.nodes.Keys == g.nodes.Keys + {a, b}
  {
    var h1 := Insert(Dir, g, a, b, e1, x1, true);
    assert Dir.canon((a, b)) == (a, b);
    assert Dir.canon((b, a)) == (b, a);
    var h := Insert(Dir, h1, b, a, e2, x2, true);
    assert h.edges[(a, b)] == h1.edges[(a, b)];
  }

  /* ------------------------------------------------------------ neighbours */

  /** `clear_neighbors`: every node's neighbour set becomes empty. */
  function ClearNeighbors(nodes: Nodes): (r: Nodes)
    ensures r.Keys == nodes.Keys
    ensures forall n | n in r :: r[n] == nodes[n].(neighbors := Some({}))
  {
    map n | n in nodes :: nodes[n].(neighbors := Some({}))
  }

  /** `nodes` holds the records of `g` with the successors taken over
      `done` only. */
  ghost predicate SuccessorsOver(g: Graph, nodes: Nodes, done: set<Couple>) {
    && nodes.Keys == g.nodes.Keys
    && forall n | n in nodes :: nodes[n] == g.nodes[n].(neighbors := Some(Successors(done, n)))
  }

  /** `nodes[n]['neighbors'].add(x)` */
  function AddNeighbour(nodes: Nodes, n: Id, x: Id): (r: Nodes)
    requires n in nodes && nodes[n].neighbors.Some?
    ensures r.Keys == nodes.Keys
    ensures r[n] == nodes[n].(neighbors := Some(nodes[n].neighbors.value + {x}))
    ensures forall m | m in r && m != n :: r[m] == nodes[m]
  {
    nodes[n := nodes[n].(neighbors := Some(nodes[n].neighbors.value + {x}))]
  }

  lemma {:induction false} StartNeighbours(g: Graph)
    ensures SuccessorsOver(g, ClearNeighbors(g.nodes), {})
  {
    forall n | n in g.nodes ensures Successors({}, n) == {} {
      SuccessorsMember({}, n);
    }
  }

  /** What `calc_neighbors` indexes: the left end of every couple is a
      node. Right ends may dangle. */
  predicate LeftEndsKnown(g: Graph) {
    forall d | d in g.edges :: d.0 in g.nodes
  }

  /** A graph whose only couple has a right end that is not a node, as
      `clear_nodes` then `add_node` can leave it: `calc_neighbors` still
      runs on it, although it is not closed. */
  lemma {:induction false} DanglingRightEndAccepted()
    ensures var g := Graph(map["a" := BareNode], map[("a", "b") := map["e" := map[]]]);
      LeftEndsKnown(g) && !Closed(g)
  {
    var g := Graph(map["a" := BareNode], map[("a", "b") := map["e" := map[]]]);
    assert ("a", "b") in g.edges && "b" !in g.nodes;
  }

  /** One turn of the `calc_neighbors` loop: the left end of `c` gains the
      right end as a neighbour, and nobody else changes. */
  lemma {:induction false} CalcNeighborsStep(g: Graph, nodes: Nodes, done: set<Couple>, c: Couple)
    requires LeftEndsKnown(g) && c in g.edges
    requires SuccessorsOver(g, nodes, done)
    ensures c.0 in nodes && nodes[c.0].neighbors.Some?
    ensures SuccessorsOver(g, AddNeighbour(nodes, c.0, c.1), done + {c})
  {
    var n2 := AddNeighbour(nodes, c.0, c.1);
    forall n | n in n2 ensures n2[n] == g.nodes[n].(neighbors := Some(Successors(done + {c}, n))) {
      SuccessorsMember(done + {c}, n);
      SuccessorsMember(done, n);
      if n == c.0 {
        assert Successors(done + {c}, n) == Successors(done, n) + {c.1};
      } else {
        assert Successors(done + {c}, n) == Successors(done, n);
      }
    }
  }

  /** `calc_neighbors`: every neighbour set is reset to empty, then each
      couple adds its right end to the set of its left end. Every left end
      must be a node. */
  method CalcNeighbors(g: Graph) returns (r: Graph)
    requires LeftEndsKnown(g)
    ensures r.edges == g.edges
    ensures r.nodes.Keys == g.nodes.Keys
    ensures forall n | n in r.nodes ::
      && r.nodes[n].attrs == g.nodes[n].attrs
      && r.nodes[n].degree == g.nodes[n].degree
      && r.nodes[n].neighbors == Some(Successors(g.edges.Keys, n))
      && forall x :: x in r.nodes[n].neighbors.value <==> (n, x) in g.edges
  {
    var nodes := ClearNeighbors(g.nodes);
    var remaining := g.edges.Keys;
    ghost var done: set<Couple> := {};
    StartNeighbours(g);
    while remaining != {}
      invariant remaining <= g.edges.Keys
      invariant done == g.edges.Keys - remaining
      invariant SuccessorsOver(g, nodes, done)
      decreases remaining
    {
      var c :| c in remaining;
      CalcNeighborsStep(g, nodes, done, c);
      MoveOne(g.edges.Keys, remaining, c);
      nodes := AddNeighbour(nodes, c.0, c.1);
      remaining := remaining - {c};
      done := done + {c};
    }
    assert done == g.edges.Keys;
    EndNeighbours(g, nodes);
    r := Graph(nodes, g.edges);
  }

  /** Visiting one more couple moves it from the remaining to the done. */
  lemma {:induction false} MoveOne<T>(all: set<T>, remaining: set<T>, c: T)
    requires c in remaining && remaining <= all
    ensures (all - remaining) + {c} == all - (remaining - {c})
  {
  }

  lemma {:induction false} EndNeighbours(g: Graph, nodes: Nodes)
    requires SuccessorsOver(g, nodes, g.edges.Keys)
    ensures nodes.Keys == g.nodes.Keys
    ensures forall n | n in nodes ::
      && nodes[n].attrs == g.nodes[n].attrs
      && nodes[n].degree == g.nodes[n].degree
      && nodes[n].neighbors == Some(Successors(g.edges.Keys, n))
      && forall x :: x in nodes[n].neighbors.value <==> (n, x) in g.edges
  {
    forall n | n in nodes ensures nodes[n].neighbors == Some(Successors(g.edges.Keys, n)) {
      SuccessorsMember(g.edges.Keys, n);
    }
  }

  /** `calc_degree` then `calc_neighbors` is the engine's recomputation for
      the directed variant. */
  method Refresh(g: Graph) returns (r: Graph)
    requires Closed(g)
    ensures r == Recompute(Dir, g)
    ensures Closed(r)
  {
    var d := CalcDegree(g);
    r := CalcNeighbors(d);
    AssembledIsRecompute(g, r);
  }

  /** Records holding the attributes, the degree and the successors over
      the edge store are the recomputed ones. */
  lemma {:induction false} AssembledIsRecompute(g: Graph, r: Graph)
    requires Closed(g)
    requires r.edges == g.edges && r.nodes.Keys == g.nodes.Keys
    requires forall n | n in r.nodes ::
      && r.nodes[n].attrs == g.nodes[n].attrs
      && r.nodes[n].degree == Some(Degree(g.edges, n))
      && r.nodes[n].neighbors == Some(Successors(g.edges.Keys, n))
    ensures r == Recompute(Dir, g)
  {
    var want := Recompute(Dir, g);
    assert r.nodes == want.nodes;
  }

  /** After recomputation a node's neighbours are exactly its successors:
      a loop makes a node its own neighbour, and a node with no outgoing
      couple has none. */
  lemma {:induction false} RecomputedNeighbours(g: Graph, n: Id)
    requires Closed(g) && n in g.nodes
    ensures var r := Recompute(Dir, g);
      && n in r.nodes && r.nodes[n].neighbors.Some?
      && (forall x :: x in r.nodes[n].neighbors.value <==> (n, x) in g.edges)
      && ((n, n) in g.edges ==> n in r.nodes[n].neighbors.value)
      && ((forall c | c in g.edges :: c.0 != n) ==> r.nodes[n].neighbors.value == {})
  {
    var r := Recompute(Dir, g);
    assert r.nodes[n].neighbors.value == Successors(g.edges.Keys, n);
    SuccessorsMember(g.edges.Keys, n);
  }

  /** Neighbourhood is not symmetric: an edge from `a` to `b` alone makes
      `b` a neighbour of `a` but not `a` a neighbour of `b`. */
  lemma {:induction false} NeighboursNotSymmetric(g: Graph, a: Id, b: Id)
    requires Closed(g) && (a, b) in g.edges && (b, a) !in g.edges
    ensures var r := Recompute(Dir, g);
      && b in r.nodes[a].neighbors.value
      && a !in r.nodes[b].neighbors.value
  {
    RecomputedNeighbours(g, a);
    RecomputedNeighbours(g, b);
  }

  /** Deleting the only parallel edge of a couple by its identifier keeps
      the emptied couple, so the right end stays a neighbour of the left
      end after recomputation. */
  lemma {:induction false} EmptiedCoupleKeepsNeighbour(g: Graph, a: Id, b: Id, id: Id)
    requires Closed(g)
    requires (a, b) in g.edges && g.edges[(a, b)].Keys == {id}
    ensures Closed(Detach(Dir, g, a, b, Some(id)))
    ensures var h := DelEdge(Dir, g, a, b, Some(id), true);
      && (a, b) in h.edges && h.edges[(a, b)] == map[]
      && h.edges.Keys == g.edges.Keys
      && b in h.nodes[a].neighbors.value
  {
    assert Dir.canon((a, b)) == (a, b);
    DetachKeepsClosed(Dir, g, a, b, Some(id));
    var h := DelEdge(Dir, g, a, b, Some(id), true);
    assert a in h.nodes;
    assert h.nodes[a].neighbors == Some(Successors(h.edges.Keys, a));
    SuccessorsMember(h.edges.Keys, a);
  }

  /* -------------------------------------------------------------- describe */

  /** The dictionary `describe` returns. There is no connectivity entry. */
  datatype Description = Description(
    kind: string, nodeCount: nat, edgeCount: nat, multi: bool, pseudo: bool, complete: bool)

  const DirectedKind := "Directed Graph"

  /** The entries of `describe`, read off the stores. */
  function Summary(g: Graph): (d: Description)
    ensures d.kind == DirectedKind
    ensures d.nodeCount == Size(g)
    ensures d.edgeCount == |g.edges.Keys|
    ensures d.multi <==> exists c | c in g.edges :: |g.edges[c]| > 1
    ensures d.pseudo <==> exists n :: (n, n) in g.edges
    ensures Closed(g) ==>
      (d.complete <==> forall a, b | a in g.nodes && b in g.nodes && a != b :: Joined(g, a, b))
  {
    PseudoIffLoop(g);
    var d := Description(DirectedKind, |g.nodes|, |g.edges|, IsMulti(g), IsPseudo(g), IsComplete(g));
    if Closed(g) then CompleteIffAllPairsJoined(g); d else d
  }

  /** `describe`: recompute degrees and neighbours, then report. The counts
      are of nodes and of couple keys, so parallel edges count once and an
      emptied couple still counts. */
  method Describe(g: Graph) returns (r: Graph, d: Description)
    requires Closed(g)
    ensures r == Recompute(Dir, g)
    ensures d == Summary(g)
  {
    r := Refresh(g);
    d := Summary(r);
    RecomputeKeepsSummary(g);
  }

  /** Recomputation changes nothing `describe` reports. */
  lemma {:induction false} RecomputeKeepsSummary(g: Graph)
    requires Closed(g)
    ensures Summary(Recompute(Dir, g)) == Summary(g)
  {
    var r := Recompute(Dir, g);
    assert |r.nodes| == |r.nodes.Keys| == |g.nodes.Keys| == |g.nodes|;
    assert JoinedPairs(r) == JoinedPairs(g);
  }

  /** Deleting one parallel edge by identifier never changes the reported
      number of edges, because the couple key stays. */
  lemma {:induction false} EdgeCountIgnoresParallelEdges(g: Graph, a: Id, b: Id, id: Id)
    requires (a, b) in g.edges && id in g.edges[(a, b)]
    ensures Summary(Detach(Dir, g, a, b, Some(id))).edgeCount == Summary(g).edgeCount
    ensures Summary(Detach(Dir, g, a, b, None)).edgeCount + 1 == Summary(g).edgeCount
  {
    assert Dir.canon((a, b)) == (a, b);
  }
}
