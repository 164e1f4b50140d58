/** Subgraph extraction. The selection is first cut down to existing nodes.
    A couple is kept, with all its parallel edges, when both endpoints are
    selected (`fullmatch`) or at least one is; the nodes of the result are
    the endpoints of the kept parallel edges, so a selected node with no kept
    edge is not carried over, and a kept couple with no parallel edge left
    contributes nothing at all. */
module Subgraph {
  import opened Wrappers
  import opened Stores
  import opened Engine

  /** `_condition` inside `get_subgraph`. */
  predicate Keep(fullmatch: bool, selected: set<Id>, c: Couple) {
    if fullmatch then c.0 in selected && c.1 in selected
    else c.0 in selected || c.1 in selected
  }

  /** Couples copied into the subgraph: kept, and with at least one parallel
      edge for the copying loop to visit. */
  function KeptEdges(g: Graph, selected: set<Id>, fullmatch: bool): (kept: Edges)
    ensures kept.Keys <= g.edges.Keys
    ensures forall c | c in kept :: kept[c] == g.edges[c]
    ensures forall c | c in g.edges ::
      c in kept <==> Keep(fullmatch, selected * g.nodes.Keys, c) && g.edges[c] != map[]
  {
    var sel := selected * g.nodes.Keys;
    map c | c in g.edges && Keep(fullmatch, sel, c) && g.edges[c] != map[] :: g.edges[c]
  }

  /** Endpoints of a set of couples, gathered one couple at a time. Only
      the forward direction is stated here; `EndsMember` gives membership
      exactly. */
  ghost function Ends(keys: set<Couple>): (ends: set<Id>)
    ensures forall c | c in keys :: c.0 in ends && c.1 in ends
    decreases keys
  {
    if keys == {} then {}
    else
      var c :| c in keys;
      Ends(keys - {c}) + {c.0, c.1}
  }

  /** A node is an endpoint exactly when some couple touches it. */
  lemma {:induction false} EndsMember(keys: set<Couple>, n: Id)
    ensures n in Ends(keys) <==> exists c | c in keys :: Touches(c, n)
    decreases keys
  {
    if keys != {} {
      var c :| c in keys && Ends(keys) == Ends(keys - {c}) + {c.0, c.1};
      EndsMember(keys - {c}, n);
      if n in Ends(keys - {c}) {
        var d :| d in keys - {c} && Touches(d, n);
        assert d in keys;
      }
      if exists d | d in keys :: Touches(d, n) {
        var d :| d in keys && Touches(d, n);
        if d != c {
          assert d in keys - {c};
        }
      }
    }
  }

  /** Copying a node record needs the node: a kept couple's endpoints must
      exist. With `fullmatch` this always holds, since both endpoints are
      selected and the selection is cut down to existing nodes. */
  predicate EndsKnown(g: Graph, selected: set<Id>, fullmatch: bool) {
    forall c | c in KeptEdges(g, selected, fullmatch) :: c.0 in g.nodes && c.1 in g.nodes
  }

  /** The kept couples with their endpoints' records copied unchanged. */
  ghost function CopyKept(g: Graph, selected: set<Id>, fullmatch: bool): (h: Graph)
    requires EndsKnown(g, selected, fullmatch)
    ensures h.edges == KeptEdges(g, selected, fullmatch)
    ensures h.nodes.Keys == Ends(h.edges.Keys) <= g.nodes.Keys
    ensures forall n | n in h.nodes :: h.nodes[n] == g.nodes[n]
    ensures Closed(h)
  {
    var kept := KeptEdges(g, selected, fullmatch);
    assert Ends(kept.Keys) <= g.nodes.Keys by {
      forall n | n in Ends(kept.Keys) ensures n in g.nodes {
        EndsMember(kept.Keys, n);
      }
    }
    Graph(map n | n in Ends(kept.Keys) :: g.nodes[n], kept)
  }

  /** `get_subgraph`, with node attributes copied exactly (see
      `SubgraphAsWritten` for what the source stores). Every couple key must
      be canonical, because the subgraph re-adds each kept edge through
      `add_edge`. */
  ghost function Subgraph(v: Variant, g: Graph, selected: set<Id>, fullmatch: bool): (s: Graph)
    requires Canonical(v, g)
    requires EndsKnown(g, selected, fullmatch)
    ensures s.edges == KeptEdges(g, selected, fullmatch)
    ensures s.nodes.Keys == Ends(s.edges.Keys) <= g.nodes.Keys
    ensures forall n | n in s.nodes :: s.nodes[n].attrs == g.nodes[n].attrs
    ensures Closed(s)
    ensures Recomputed(v, s)
  {
    Recompute(v, CopyKept(g, selected, fullmatch))
  }

  /** The attribute `get_subgraph` passes to `add_node` as if it were an
      option of that method. */
  const RecalcKey := "recalculate_calculated_attributes"

  /** `get_subgraph` as the source writes it: every copied node also gets the
      stray attribute `recalculate_calculated_attributes = False`, and the
      call raises a duplicate-keyword error (here `None`) as soon as a node it
      would copy already carries that attribute. */
  ghost function SubgraphAsWritten(v: Variant, g: Graph, selected: set<Id>, fullmatch: bool)
    : (s: Option<Graph>)
    requires Canonical(v, g)
    requires EndsKnown(g, selected, fullmatch)
    ensures s.None? <==> HasStray(CopyKept(g, selected, fullmatch))
    ensures s.Some? ==>
      && s.value.edges == KeptEdges(g, selected, fullmatch)
      && s.value.nodes.Keys == Ends(s.value.edges.Keys)
      && (forall n | n in s.value.nodes ::
            n in g.nodes && s.value.nodes[n].attrs == g.nodes[n].attrs[RecalcKey := Flag(false)])
      && Recomputed(v, s.value)
  {
    var h := CopyKept(g, selected, fullmatch);
    if HasStray(h) then None else Some(Recompute(v, Mark(h)))
  }

  /** Some node already carries the stray attribute. */
  predicate HasStray(h: Graph) {
    exists n | n in h.nodes :: RecalcKey in h.nodes[n].attrs
  }

  /** Every node record gains the stray attribute. */
  function Mark(h: Graph): (m: Graph)
    ensures m.edges == h.edges
    ensures m.nodes.Keys == h.nodes.Keys
    ensures forall n | n in m.nodes :: m.nodes[n].attrs == h.nodes[n].attrs[RecalcKey := Flag(false)]
    ensures Closed(h) ==> Closed(m)
  {
    Graph(map n | n in h.nodes :: h.nodes[n].(attrs := h.nodes[n].attrs[RecalcKey := Flag(false)]), h.edges)
  }

  /** `fullmatch` keeps fewer couples than its opposite: both endpoints
      selected implies one endpoint selected. */
  lemma {:induction false} FullmatchKeepsLess(v: Variant, g: Graph, selected: set<Id>)
    requires Canonical(v, g)
    requires EndsKnown(g, selected, false)
    ensures EndsKnown(g, selected, true)
    ensures Subgraph(v, g, selected, true).edges.Keys <= Subgraph(v, g, selected, false).edges.Keys
  {
  }

  /** A selection whose nodes share no parallel edge among themselves gives
      the empty graph under `fullmatch`. */
  lemma {:induction false} NoInnerEdgesGivesEmpty(v: Variant, g: Graph, selected: set<Id>)
    requires Canonical(v, g)
    requires forall c | c in g.edges && c.0 in selected && c.1 in selected :: g.edges[c] == map[]
    ensures EndsKnown(g, selected, true)
    ensures Subgraph(v, g, selected, true) == EmptyGraph
  {
    var s := Subgraph(v, g, selected, true);
    assert s.edges == map[];
    assert s.nodes == map[];
  }

  /** A selected node none of whose couples is copied is not carried over. */
  lemma {:induction false} SelectedIsolatedNodeDropped(v: Variant, g: Graph, selected: set<Id>, fullmatch: bool, n: Id)
    requires Canonical(v, g)
    requires EndsKnown(g, selected, fullmatch)
    requires n in selected && n in g.nodes
    requires forall c | c in g.edges && Touches(c, n) :: g.edges[c] == map[]
    ensures n !in Subgraph(v, g, selected, fullmatch).nodes
  {
    EndsMember(Subgraph(v, g, selected, fullmatch).edges.Keys, n);
  }

  /** A `fullmatch` subgraph keeps all of its own couples under the same
      selection. */
  lemma {:induction false} FullSubgraphKeepsItself(v: Variant, g: Graph, selected: set<Id>)
    requires Canonical(v, g)
    ensures EndsKnown(g, selected, true)
    ensures var s := Subgraph(v, g, selected, true);
      && Canonical(v, s)
      && KeptEdges(s, selected, true) == s.edges
      && EndsKnown(s, selected, true)
  {
    var s := Subgraph(v, g, selected, true);
    forall c | c in s.edges ensures c in KeptEdges(s, selected, true) {
      assert c.0 in s.nodes && c.1 in s.nodes;
    }
  }

  /** Extracting the same selection again from a `fullmatch` subgraph gives
      the same subgraph. */
  lemma {:induction false} SubgraphIdempotent(v: Variant, g: Graph, selected: set<Id>)
    requires Canonical(v, g)
    ensures EndsKnown(g, selected, true)
    ensures var s := Subgraph(v, g, selected, true);
      && Canonical(v, s)
      && EndsKnown(s, selected, true)
      && Subgraph(v, s, selected, true) == s
  {
    FullSubgraphKeepsItself(v, g, selected);
    var h := CopyKept(g, selected, true);
    var s := Recompute(v, h);
    var k := CopyKept(s, selected, true);
    assert k.edges == h.edges;
    assert k.nodes.Keys == h.nodes.Keys;
    RecomputeForgetsCalculatedFields(v, k, h);
  }

  /** On a graph whose nodes carry no stray attribute yet, the source's
      subgraph has the same edges and nodes as the corrected one, but every
      node gains the stray attribute. */
  lemma {:induction false} AsWrittenAddsStrayAttribute(v: Variant, g: Graph, selected: set<Id>, fullmatch: bool)
    requires Canonical(v, g)
    requires EndsKnown(g, selected, fullmatch)
    requires forall n | n in g.nodes :: RecalcKey !in g.nodes[n].attrs
    ensures SubgraphAsWritten(v, g, selected, fullmatch).Some?
    ensures var s := SubgraphAsWritten(v, g, selected, fullmatch).value;
      forall n | n in s.nodes :: RecalcKey in s.nodes[n].attrs
  {
  }

  /** The discrepancy on a concrete graph: two nodes joined by one edge. Its
      full subgraph succeeds, but extracting the same subgraph from that
      result raises, whereas the corrected extraction gives it back. */
  lemma {:induction false} SubgraphOfSubgraphRaises()
    ensures var v := Variant(c => c, (keys, n) => {});
      var g := Graph(map["a" := BareNode, "b" := BareNode], map[("a", "b") := map["e" := map[]]]);
      && Canonical(v, g)
      && EndsKnown(g, {"a", "b"}, true)
      && SubgraphAsWritten(v, g, {"a", "b"}, true).Some?
      && var s := SubgraphAsWritten(v, g, {"a", "b"}, true).value;
         && Canonical(v, s)
         && EndsKnown(s, {"a", "b"}, true)
         && SubgraphAsWritten(v, s, {"a", "b"}, true).None?
         && Subgraph(v, Subgraph(v, g, {"a", "b"}, true), {"a", "b"}, true)
            == Subgraph(v, g, {"a", "b"}, true)
  {
    var v := Variant(c => c, (keys, n) => {});
    var g := Graph(map["a" := BareNode, "b" := BareNode], map[("a", "b") := map["e" := map[]]]);
    var sel := {"a", "b"};
    assert ("a", "b") in KeptEdges(g, sel, true);
    AsWrittenAddsStrayAttribute(v, g, sel, true);
    var s := SubgraphAsWritten(v, g, sel, true).value;
    assert ("a", "b") in s.edges;
    assert "a" in s.nodes;
    assert ("a", "b") in KeptEdges(s, sel, true);
    assert "a" in Ends(KeptEdges(s, sel, true).Keys);
    SubgraphIdempotent(v, g, sel);
  }
}
