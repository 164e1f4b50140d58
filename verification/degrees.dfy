/** Degree of a node: every couple contributes its number of parallel edges
    once for each endpoint position the node occupies, so a loop counts twice
    and in- and out-edges are counted together. */
module Degrees {
  import opened Wrappers
  import opened Stores

  /** How many endpoint positions of `c` are occupied by `n` (0, 1 or 2). */
  function Incidence(c: Couple, n: Id): (k: nat)
    ensures k <= 2
    ensures k > 0 <==> Touches(c, n)
    ensures k == 2 <==> c.0 == n && c.1 == n
  {
    (if c.0 == n then 1 else 0) + (if c.1 == n then 1 else 0)
  }

  /** Contribution of one couple to the degree of `n`. */
  function Share(edges: Edges, c: Couple, n: Id): nat
    requires c in edges
  {
    |edges[c]| * Incidence(c, n)
  }

  /** Sum of the contributions of the couples in `keys`. */
  ghost function DegreeOver(edges: Edges, keys: set<Couple>, n: Id): nat
    requires keys <= edges.Keys
    decreases keys
  {
    if keys == {} then 0
    else
      var c :| c in keys;
      Share(edges, c, n) + DegreeOver(edges, keys - {c}, n)
  }

  /** The degree `calc_degree` assigns to `n`. */
  ghost function Degree(edges: Edges, n: Id): nat {
    DegreeOver(edges, edges.Keys, n)
  }

  /** The sum does not depend on the order the couples are visited in: any
      couple can be taken out first. */
  lemma {:induction false} DegreeOverRemove(edges: Edges, keys: set<Couple>, c: Couple, n: Id)
    requires keys <= edges.Keys
    requires c in keys
    ensures DegreeOver(edges, keys, n) == Share(edges, c, n) + DegreeOver(edges, keys - {c}, n)
    decreases keys
  {
    var d :| d in keys && DegreeOver(edges, keys, n) == Share(edges, d, n) + DegreeOver(edges, keys - {d}, n);
    if d != c {
      DegreeOverRemove(edges, keys - {d}, c, n);
      DegreeOverRemove(edges, keys - {c}, d, n);
      assert keys - {d} - {c} == keys - {c} - {d};
    }
  }

  /** Couples that do not touch `n` contribute nothing. */
  lemma {:induction false} DegreeOverUntouched(edges: Edges, keys: set<Couple>, n: Id)
    requires keys <= edges.Keys
    requires forall c | c in keys :: !Touches(c, n)
    ensures DegreeOver(edges, keys, n) == 0
    decreases keys
  {
    if keys != {} {
      var c :| c in keys;
      DegreeOverRemove(edges, keys, c, n);
      DegreeOverUntouched(edges, keys - {c}, n);
    }
  }

  /** Two edge stores that agree on every couple in `keys` give the same sum. */
  lemma {:induction false} DegreeOverFrame(e1: Edges, e2: Edges, keys: set<Couple>, n: Id)
    requires keys <= e1.Keys && keys <= e2.Keys
    requires forall c | c in keys :: |e1[c]| == |e2[c]|
    ensures DegreeOver(e1, keys, n) == DegreeOver(e2, keys, n)
    decreases keys
  {
    if keys != {} {
      var c :| c in keys;
      DegreeOverRemove(e1, keys, c, n);
      DegreeOverRemove(e2, keys, c, n);
      DegreeOverFrame(e1, e2, keys - {c}, n);
    }
  }

  /** A node touched by no couple has degree 0. */
  lemma {:induction false} IsolatedDegreeZero(edges: Edges, n: Id)
    requires forall c | c in edges :: !Touches(c, n)
    ensures Degree(edges, n) == 0
  {
    DegreeOverUntouched(edges, edges.Keys, n);
  }

  /** Replacing the parallel edges of one couple `c` by `m` changes every
      degree by exactly the difference of that couple's contributions. */
  lemma {:induction false} SetCoupleDegree(edges: Edges, c: Couple, m: Multiples, n: Id)
    ensures Degree(edges[c := m], n)
         == Degree(edges, n) - (if c in edges then Share(edges, c, n) else 0) + |m| * Incidence(c, n)
  {
    var e2 := edges[c := m];
    var rest := edges.Keys - {c};
    DegreeOverRemove(e2, e2.Keys, c, n);
    assert e2.Keys - {c} == rest;
    DegreeOverFrame(edges, e2, rest, n);
    if c in edges {
      DegreeOverRemove(edges, edges.Keys, c, n);
    } else {
      assert edges.Keys == rest;
    }
  }

  /** Removing couple `c` entirely subtracts its contribution. */
  lemma {:induction false} RemoveCoupleDegree(edges: Edges, c: Couple, n: Id)
    requires c in edges
    ensures Degree(edges - {c}, n) == Degree(edges, n) - Share(edges, c, n)
  {
    var e2 := edges - {c};
    DegreeOverRemove(edges, edges.Keys, c, n);
    assert e2.Keys == edges.Keys - {c};
    DegreeOverFrame(edges, e2, e2.Keys, n);
  }

  /** `nodes` holds the records of `g` with the degree summed over `done`. */
  ghost predicate DegreesOver(g: Graph, nodes: Nodes, done: set<Couple>)
    requires done <= g.edges.Keys
  {
    && nodes.Keys == g.nodes.Keys
    && forall n | n in nodes :: nodes[n] == g.nodes[n].(degree := Some(DegreeOver(g.edges, done, n)))
  }

  /** `nodes[n]['degree'] += k` */
  function Bump(nodes: Nodes, n: Id, k: nat): (r: Nodes)
    requires n in nodes && nodes[n].degree.Some?
    ensures r.Keys == nodes.Keys
    ensures r[n] == nodes[n].(degree := Some(nodes[n].degree.value + k))
    ensures forall m | m in r && m != n :: r[m] == nodes[m]
  {
    nodes[n := nodes[n].(degree := Some(nodes[n].degree.value + k))]
  }

  /** A record whose degree is `d` before the turn for couple `c` holds
      `d` plus the share of `c` after it. */
  lemma {:induction false} BumpBothEnds(rec: NodeRec, nodes: Nodes, c: Couple, k: nat, n: Id, d: nat)
    requires n in nodes && nodes[n] == rec.(degree := Some(d))
    requires c.0 in nodes && c.1 in nodes && nodes[c.0].degree.Some? && nodes[c.1].degree.Some?
    ensures Bump(Bump(nodes, c.0, k), c.1, k)[n] == rec.(degree := Some(d + k * Incidence(c, n)))
  {
  }

  /** One turn of the `calc_degree` loop: both endpoints of `c` gain the
      number of parallel edges of `c`. */
  lemma {:induction false} CalcDegreeStep(g: Graph, nodes: Nodes, done: set<Couple>, c: Couple)
    requires Closed(g)
    requires done <= g.edges.Keys && c in g.edges && c !in done
    requires DegreesOver(g, nodes, done)
    ensures c.0 in nodes && nodes[c.0].degree.Some?
    ensures c.1 in nodes && nodes[c.1].degree.Some?
    ensures var k := |g.edges[c]|;
      DegreesOver(g, Bump(Bump(nodes, c.0, k), c.1, k), done + {c})
  {
    var k := |g.edges[c]|;
    var n2 := Bump(Bump(nodes, c.0, k), c.1, k);
    assert done + {c} - {c} == done;
    forall n | n in n2
      ensures n2[n] == g.nodes[n].(degree := Some(DegreeOver(g.edges, done + {c}, n)))
    {
      DegreeOverRemove(g.edges, done + {c}, c, n);
      BumpBothEnds(g.nodes[n], nodes, c, k, n, DegreeOver(g.edges, done, n));
    }
  }

  /** `clear_degree`: every node's degree becomes 0, nothing else changes. */
  function ClearDegree(nodes: Nodes): (r: Nodes)
    ensures r.Keys == nodes.Keys
    ensures forall n | n in r :: r[n] == nodes[n].(degree := Some(0))
  {
    map n | n in nodes :: nodes[n].(degree := Some(0))
  }

  lemma {:induction false} StartDegrees(g: Graph)
    ensures DegreesOver(g, ClearDegree(g.nodes), {})
  {
  }

  lemma {:induction false} EndDegrees(g: Graph, nodes: Nodes)
    requires DegreesOver(g, nodes, g.edges.Keys)
    ensures nodes.Keys == g.nodes.Keys
    ensures forall n | n in nodes :: nodes[n] == g.nodes[n].(degree := Some(Degree(g.edges, n)))
  {
  }

  /** `clear_degree` followed by the loop of `calc_degree`: every node's degree
      is reset to 0, then each couple adds its number of parallel edges to
      both of its endpoints. Every endpoint must be a node. */
  method CalcDegree(g: Graph) returns (r: Graph)
    requires Closed(g)
    ensures r.edges == g.edges
    ensures r.nodes.Keys == g.nodes.Keys
    ensures forall n | n in r.nodes ::
      r.nodes[n] == g.nodes[n].(degree := Some(Degree(g.edges, n)))
  {
    var nodes := ClearDegree(g.nodes);
    var remaining := g.edges.Keys;
    ghost var done: set<Couple> := {};
    StartDegrees(g);
    while remaining != {}
      invariant remaining <= g.edges.Keys
      invariant done == g.edges.Keys - remaining
      invariant DegreesOver(g, nodes, done)
      decreases remaining
    {
      var c :| c in remaining;
      var k := |g.edges[c]|;
      CalcDegreeStep(g, nodes, done, c);
      nodes := Bump(nodes, c.0, k);
      nodes := Bump(nodes, c.1, k);
      remaining := remaining - {c};
      done := done + {c};
    }
    assert done == g.edges.Keys;
    EndDegrees(g, nodes);
    r := Graph(nodes, g.edges);
  }
}
