/** Two directed graphs worked through by hand: the stores of the class
    documentation, where Sebastian and Elizabeth are joined in both
    directions, with the ages, sexes, amounts and dates it lists, and a
    three-node chain X, Y, Z with a doubled first edge, whose attributes
    are left empty. Attribute values play no part in the calculated
    fields. */
module DirectedExamples {
  import opened Wrappers
  import opened Stores
  import opened Degrees
  import opened Structure
  import opened Engine
  import opened Directed

  /** The degree over exactly two couples is the sum of their shares. */
  lemma {:induction false} DegreeOfTwo(edges: Edges, c1: Couple, c2: Couple, n: Id)
    requires edges.Keys == {c1, c2} && c1 != c2
    ensures Degree(edges, n) == Share(edges, c1, n) + Share(edges, c2, n)
  {
    DegreeOverRemove(edges, edges.Keys, c1, n);
    assert edges.Keys - {c1} == {c2};
    DegreeOverRemove(edges, {c2}, c2, n);
    assert {c2} - {c2} == {};
  }

  /** Degree of a node of a graph with exactly two couples. */
  lemma {:induction false} RecomputedDegreeOfTwo(g: Graph, c1: Couple, c2: Couple, n: Id)
    requires Closed(g) && n in g.nodes
    requires g.edges.Keys == {c1, c2} && c1 != c2
    ensures n in Recompute(Dir, g).nodes
    ensures Recompute(Dir, g).nodes[n].degree.Some?
    ensures Recompute(Dir, g).nodes[n].degree.value ==
      |g.edges[c1]| * Incidence(c1, n) + |g.edges[c2]| * Incidence(c2, n)
  {
    DegreeOfTwo(g.edges, c1, c2, n);
  }

  /** The one successor of a node that starts exactly one of two couples. */
  lemma {:induction false} SoleSuccessor(g: Graph, c1: Couple, c2: Couple, n: Id)
    requires Closed(g) && n in g.nodes
    requires g.edges.Keys == {c1, c2} && c1.0 == n && c2.0 != n
    ensures n in Recompute(Dir, g).nodes
    ensures Recompute(Dir, g).nodes[n].neighbors == Some({c1.1})
  {
    RecomputedNeighbours(g, n);
    var s := Recompute(Dir, g).nodes[n].neighbors.value;
    assert s == {c1.1} by {
      forall x | x in s ensures x == c1.1 {
        assert (n, x) == c1 || (n, x) == c2;
      }
      assert (n, c1.1) == c1;
    }
  }

  /** A node that starts neither of two couples has no successor. */
  lemma {:induction false} NoSuccessor(g: Graph, c1: Couple, c2: Couple, n: Id)
    requires Closed(g) && n in g.nodes
    requires g.edges.Keys == {c1, c2} && c1.0 != n && c2.0 != n
    ensures n in Recompute(Dir, g).nodes
    ensures Recompute(Dir, g).nodes[n].neighbors == Some({})
  {
    RecomputedNeighbours(g, n);
  }

  /* ------------------------------------------------- Sebastian and Elizabeth */

  /** `a` and `b` joined in both directions: two parallel edges from `a` to
      `b` and one back. */
  ghost predicate TwoWayShape(g: Graph, a: Id, b: Id) {
    && a != b
    && g.nodes.Keys == {a, b}
    && g.edges.Keys == {(a, b), (b, a)}
    && |g.edges[(a, b)]| == 2 && |g.edges[(b, a)]| == 1
  }

  lemma {:induction false} TwoWayFacts(g: Graph, a: Id, b: Id)
    requires TwoWayShape(g, a, b)
    ensures Closed(g)
    ensures var r := Recompute(Dir, g);
      && a in r.nodes && b in r.nodes
      && r.nodes[a].degree == Some(3) && r.nodes[b].degree == Some(3)
      && r.nodes[a].neighbors == Some({b}) && r.nodes[b].neighbors == Some({a})
  {
    RecomputedDegreeOfTwo(g, (a, b), (b, a), a);
    RecomputedDegreeOfTwo(g, (a, b), (b, a), b);
    SoleSuccessor(g, (a, b), (b, a), a);
    SoleSuccessor(g, (b, a), (a, b), b);
  }

  /** Two nodes, two couples (three edges), a multigraph without loops, and
      complete because the one pair of nodes is joined. */
  lemma {:induction false} TwoWaySummary(g: Graph, a: Id, b: Id)
    requires TwoWayShape(g, a, b)
    ensures Summary(g) == Description(DirectedKind, 2, 2, true, false, true)
  {
    assert |g.nodes| == |g.nodes.Keys| == 2;
    assert |g.edges| == |g.edges.Keys| == 2;
    assert Joined(g, a, b);
    var d := Summary(g);
    assert !d.pseudo by {
      forall n ensures (n, n) !in g.edges {
      }
    }
  }

  /** The stores of the class documentation: two transfers from Sebastian to
      Elizabeth and one back. Numbers stand in as `Other` values and dates
      as strings. */
  const Pair := Graph(
    map["Elizabeth" := NodeRec(map["age" := Other(19), "sex" := Flag(false)], None, None),
        "Sebastian" := NodeRec(map["age" := Other(21), "sex" := Flag(true)], None, None)],
    map[("Sebastian", "Elizabeth") :=
          map["46f893e" := map["amount" := Other(1400), "date" := Ident("2024-03-08")],
              "206ij5s" := map["amount" := Other(2700), "date" := Ident("2024-07-23")]],
        ("Elizabeth", "Sebastian") :=
          map["239af58" := map["amount" := Other(1900), "date" := Ident("2024-04-16")]]])

  lemma {:induction false} PairShape()
    ensures TwoWayShape(Pair, "Sebastian", "Elizabeth")
  {
    assert "Sebastian"[0] != "Elizabeth"[0] && "46f893e"[0] != "206ij5s"[0];
  }

  lemma {:induction false} PairExample()
    ensures Closed(Pair)
    ensures var r := Recompute(Dir, Pair);
      && "Sebastian" in r.nodes && "Elizabeth" in r.nodes
      && r.nodes["Sebastian"].degree == Some(3)
      && r.nodes["Elizabeth"].degree == Some(3)
      && r.nodes["Sebastian"].neighbors == Some({"Elizabeth"})
      && r.nodes["Elizabeth"].neighbors == Some({"Sebastian"})
      && r.nodes["Elizabeth"].attrs == Pair.nodes["Elizabeth"].attrs
      && r.edges == Pair.edges
    ensures Summary(Pair) == Description(DirectedKind, 2, 2, true, false, true)
  {
    PairShape();
    TwoWayFacts(Pair, "Sebastian", "Elizabeth");
    TwoWaySummary(Pair, "Sebastian", "Elizabeth");
  }

  /* -------------------------------------------------------------- X, Y, Z */

  /** Two parallel edges from `x` to `y` and one from `y` to `z`. */
  ghost predicate ChainShape(g: Graph, x: Id, y: Id, z: Id) {
    && x != y && y != z && x != z
    && g.nodes.Keys == {x, y, z}
    && g.edges.Keys == {(x, y), (y, z)}
    && |g.edges[(x, y)]| == 2 && |g.edges[(y, z)]| == 1
  }

  lemma {:induction false} ChainFacts(g: Graph, x: Id, y: Id, z: Id)
    requires ChainShape(g, x, y, z)
    ensures Closed(g)
    ensures var r := Recompute(Dir, g);
      && x in r.nodes && y in r.nodes && z in r.nodes
      && r.nodes[x].degree == Some(2) && r.nodes[y].degree == Some(3) && r.nodes[z].degree == Some(1)
      && r.nodes[x].neighbors == Some({y}) && r.nodes[y].neighbors == Some({z})
      && r.nodes[z].neighbors == Some({})
  {
    RecomputedDegreeOfTwo(g, (x, y), (y, z), x);
    RecomputedDegreeOfTwo(g, (x, y), (y, z), y);
    RecomputedDegreeOfTwo(g, (x, y), (y, z), z);
    SoleSuccessor(g, (x, y), (y, z), x);
    SoleSuccessor(g, (y, z), (x, y), y);
    NoSuccessor(g, (x, y), (y, z), z);
  }

  /** Three nodes, two couples, a multigraph without loops, and not
      complete because `x` and `z` are not joined. */
  lemma {:induction false} ChainSummary(g: Graph, x: Id, y: Id, z: Id)
    requires ChainShape(g, x, y, z)
    ensures Summary(g) == Description(DirectedKind, 3, 2, true, false, false)
  {
    assert |g.nodes| == |g.nodes.Keys| == 3;
    assert |g.edges| == |g.edges.Keys| == 2;
    assert !Joined(g, x, z);
    var d := Summary(g);
    assert !d.pseudo by {
      forall n ensures (n, n) !in g.edges {
      }
    }
  }

  /** Nodes X, Y, Z with edges e1 and e2 from X to Y and e3 from Y to Z. */
  const XYZ := Graph(
    map["X" := BareNode, "Y" := BareNode, "Z" := BareNode],
    map[("X", "Y") := map["e1" := map[], "e2" := map[]], ("Y", "Z") := map["e3" := map[]]])

  lemma {:induction false} XYZExample()
    ensures Closed(XYZ)
    ensures var r := Recompute(Dir, XYZ);
      && "X" in r.nodes && "Y" in r.nodes && "Z" in r.nodes
      && r.nodes["X"].degree == Some(2)
      && r.nodes["Y"].degree == Some(3)
      && r.nodes["Z"].degree == Some(1)
      && r.nodes["X"].neighbors == Some({"Y"})
      && r.nodes["Y"].neighbors == Some({"Z"})
      && r.nodes["Z"].neighbors == Some({})
    ensures Summary(XYZ) == Description(DirectedKind, 3, 2, true, false, false)
  {
    assert "X"[0] != "Y"[0] && "Y"[0] != "Z"[0] && "X"[0] != "Z"[0] && "e1"[1] != "e2"[1];
    assert ChainShape(XYZ, "X", "Y", "Z");
    ChainFacts(XYZ, "X", "Y", "Z");
    ChainSummary(XYZ, "X", "Y", "Z");
  }
}
