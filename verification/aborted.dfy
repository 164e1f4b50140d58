/** What the `nodes` and `edges` setters leave behind when they raise. A
    setter empties its store before it checks anything, and the calls it
    replays write to the graph one at a time, so an exception leaves the
    emptied store, or the store as far as the calls got. */
module Aborted {
  import opened Wrappers
  import opened Stores
  import opened Validation
  import opened Engine
  import opened Bulk

  /* ------------------------------------------------------------ node loads */

  /** How far a node load gets: the graph after the longest run of leading
      calls that succeed, and the length of that run. The call after the
      run is the one whose error the whole load reports. */
  function NodesReached(g: Graph, calls: seq<NodeCall>): (r: (Graph, nat))
    ensures r.1 <= |calls|
    ensures ApplyNodeCalls(g, calls[..r.1]) == Success(r.0)
    ensures r.1 == |calls| <==> ApplyNodeCalls(g, calls).Success?
    ensures r.1 < |calls| ==>
      && NodeStep(r.0, calls[r.1]).Failure?
      && ApplyNodeCalls(g, calls) == Failure(NodeStep(r.0, calls[r.1]).error)
    decreases |calls|
  {
    if calls == [] then (g, 0)
    else
      match NodeStep(g, calls[0])
      case Failure(_) =>
        assert calls[..0] == [];
        (g, 0)
      case Success(h) =>
        var r := NodesReached(h, calls[1..]);
        assert calls[..r.1 + 1][1..] == calls[1..][..r.1];
        assert r.1 < |calls[1..]| ==> calls[1..][r.1] == calls[r.1 + 1];
        assert calls[..|calls|] == calls;
        (r.0, r.1 + 1)
  }

  /** A node load from `g` stopped at call `n`: the calls before it left
      `h`, holding exactly their nodes, and call `n` raised `e` on `h`. */
  predicate NodesStoppedAt(g: Graph, calls: seq<NodeCall>, n: nat, h: Graph, e: Error) {
    && n < |calls|
    && ApplyNodeCalls(g, calls[..n]) == Success(h)
    && h.nodes.Keys == g.nodes.Keys + NodeCallIds(calls[..n])
    && NodeStep(h, calls[n]) == Failure(e)
  }

  /** The graph the `nodes` setter leaves, whether it returns or raises.
      The edge store is never touched. A failed check leaves no nodes at
      all. A failed call leaves exactly the nodes of the calls before it,
      as they stored them. */
  function SetNodesLeaves(g: Graph, x: Value): (h: Graph)
    ensures h.edges == g.edges
    ensures ValidateNodes(x).Failure? ==> h.nodes == map[] && SetNodes(g, x).Failure?
    ensures SetNodes(g, x).Success? ==> h == SetNodes(g, x).value
    ensures ValidateNodes(x).Success? && SetNodes(g, x).Failure? ==>
      exists n :: NodesStoppedAt(g.(nodes := map[]), ValidateNodes(x).value, n, h, SetNodes(g, x).error)
  {
    match ValidateNodes(x)
    case Failure(_) => g.(nodes := map[])
    case Success(calls) =>
      var g0 := g.(nodes := map[]);
      var r := NodesReached(g0, calls);
      assert calls[..|calls|] == calls;
      assert r.1 < |calls| ==> NodesStoppedAt(g0, calls, r.1, r.0, SetNodes(g, x).error);
      r.0
  }

  /** A node dictionary whose second attribute dictionary uses the name of
      an argument the loader passes itself: the first node is stored, the
      second call raises, and the setter leaves the first node alone in the
      store. */
  lemma {:induction false} NodeLoadStopsHalfway(g: Graph)
    ensures var x := Dict([(Ident("a"), Dict([])), (Ident("b"), Dict([(Ident("identifier"), Other(1))]))]);
      && SetNodes(g, x) == Failure(KeywordClash)
      && SetNodesLeaves(g, x).nodes == map["a" := BareNode]
      && SetNodesLeaves(g, x).edges == g.edges
  {
    var x := Dict([(Ident("a"), Dict([])), (Ident("b"), Dict([(Ident("identifier"), Other(1))]))]);
    var calls := ValidateNodes(x).value;
    assert calls == [Keyed("a", []), Keyed("b", [(Ident("identifier"), Other(1))])];
    var g0 := g.(nodes := map[]);
    var g1 := g0.(nodes := map["a" := BareNode]);
    assert NodeStep(g0, calls[0]) == Success(g1);
    assert NodeStep(g1, calls[1]) == Failure(KeywordClash);
    var r := NodesReached(g0, calls);
    assert r == (g1, 1);
  }

  /* ------------------------------------------------------------ edge loads */

  /** How far a replay gets: the graph after the longest run of leading
      calls that succeed, and the length of that run. Call `k + i` of the
      load is the one that gets `gen(k + i)`. */
  function Reached(step: (Graph, EdgeCall, Id) -> Result<Graph, Error>, g: Graph, calls: seq<EdgeCall>, gen: nat -> Id, k: nat)
    : (r: (Graph, nat))
    ensures r.1 <= |calls|
    ensures Replay(step, g, calls[..r.1], gen, k) == Success(r.0)
    ensures r.1 == |calls| <==> Replay(step, g, calls, gen, k).Success?
    ensures r.1 < |calls| ==>
      && step(r.0, calls[r.1], gen(k + r.1)).Failure?
      && Replay(step, g, calls, gen, k) == Failure(step(r.0, calls[r.1], gen(k + r.1)).error)
    decreases |calls|
  {
    if calls == [] then (g, 0)
    else
      match step(g, calls[0], gen(k))
      case Failure(_) =>
        assert calls[..0] == [];
        (g, 0)
      case Success(h) =>
        var r := Reached(step, h, calls[1..], gen, k + 1);
        assert calls[..r.1 + 1][1..] == calls[1..][..r.1];
        assert r.1 < |calls[1..]| ==> calls[1..][r.1] == calls[r.1 + 1];
        assert calls[..|calls|] == calls;
        (r.0, r.1 + 1)
  }

  /** An edge load from `g` stopped at call `n`: the calls before it left
      `h`, which adds exactly their endpoints and couples to `g`, and call
      `n` raised `e` on `h`. */
  predicate EdgesStoppedAt(v: Variant, g: Graph, calls: seq<EdgeCall>, gen: nat -> Id, n: nat, h: Graph, e: Error) {
    && n < |calls|
    && ApplyEdgeCalls(v, g, calls[..n], gen, 0) == Success(h)
    && h.nodes.Keys == g.nodes.Keys + CallEnds(calls[..n])
    && h.edges.Keys == g.edges.Keys + CallCouples(v, calls[..n])
    && LoadEdge(v, h, calls[n], gen(n)) == Failure(e)
  }

  /** The graph the `edges` setter leaves, whether it returns or raises.
      Node records already present are kept in every case. A failed check
      leaves no edges and the nodes as they were. A failed call leaves
      exactly the endpoints and couples of the calls before it. */
  function SetEdgesLeaves(v: Variant, g: Graph, x: Value, gen: nat -> Id): (h: Graph)
    ensures g.nodes.Keys <= h.nodes.Keys && forall n | n in g.nodes :: h.nodes[n] == g.nodes[n]
    ensures ValidateEdges(x).Failure? ==> h == g.(edges := map[]) && SetEdges(v, g, x, gen).Failure?
    ensures SetEdges(v, g, x, gen).Success? ==> h == SetEdges(v, g, x, gen).value
    ensures ValidateEdges(x).Success? && SetEdges(v, g, x, gen).Failure? ==>
      exists n :: EdgesStoppedAt(v, g.(edges := map[]), ValidateEdges(x).value, gen, n, h, SetEdges(v, g, x, gen).error)
  {
    match ValidateEdges(x)
    case Failure(_) => g.(edges := map[])
    case Success(calls) =>
      var g0 := g.(edges := map[]);
      var r := Reached(LoadStep(v), g0, calls, gen, 0);
      assert calls[..|calls|] == calls;
      assert r.1 < |calls| ==> LoadStep(v)(r.0, calls[r.1], gen(r.1)) == LoadEdge(v, r.0, calls[r.1], gen(r.1));
      assert ApplyEdgeCalls(v, g0, calls[..r.1], gen, 0) == Success(r.0);
      assert ApplyEdgeCalls(v, g0, calls, gen, 0) == Replay(LoadStep(v), g0, calls, gen, 0);
      assert r.1 < |calls| ==> EdgesStoppedAt(v, g0, calls, gen, r.1, r.0, SetEdges(v, g, x, gen).error);
      r.0
  }

  /** An edge dictionary whose second couple carries an attribute named
      like an argument the loader passes itself. */
  const ClashingEdges: Value := Dict([
    (Tuple([Ident("a"), Ident("b")]), Dict([(Ident("e1"), Dict([]))])),
    (Tuple([Ident("b"), Ident("c")]), Dict([(Ident("e2"), Dict([(Ident("node_l"), Other(1))]))]))])

  const ClashingCalls: seq<EdgeCall> := [
    EdgeCall("a", "b", Some("e1"), [], true),
    EdgeCall("b", "c", Some("e2"), [(Ident("node_l"), Other(1))], true)]

  /** Both entries pass every check, so the dictionary becomes two wrapped
      calls with their own identifiers. */
  lemma {:induction false} ClashingEdgesPassChecks()
    ensures ValidateEdges(ClashingEdges) == Success(ClashingCalls)
  {
    var es := ClashingEdges.entries;
    assert AdmissibleEdgeDict(es);
    EdgeDictReportsLowestCheck(es);
    assert es[1..][1..] == [];
    assert DictCalls(es) == EntryCalls(es[0].0, es[0].1) + EntryCalls(es[1].0, es[1].1);
    assert EntryCalls(es[0].0, es[0].1) == [ClashingCalls[0]];
    assert EntryCalls(es[1].0, es[1].1) == [ClashingCalls[1]];
    assert ClashingCalls == [ClashingCalls[0]] + [ClashingCalls[1]];
  }

  /** Replaying the two calls on an empty edge store stores the first edge
      with its endpoints and stops at the second. */
  lemma {:induction false} ClashingCallsStop(v: Variant, g0: Graph, gen: nat -> Id)
    requires g0.edges == map[]
    ensures var r := Reached(LoadStep(v), g0, ClashingCalls, gen, 0);
      && r.1 == 1
      && r.0.edges.Keys == {v.canon(("a", "b"))}
      && r.0.nodes.Keys == g0.nodes.Keys + {"a", "b"}
      && Replay(LoadStep(v), g0, ClashingCalls, gen, 0) == Failure(KeywordClash)
  {
    var h := LoadEdge(v, g0, ClashingCalls[0], gen(0));
    assert LoadStep(v)(g0, ClashingCalls[0], gen(0)) == h;
    assert h.Success?;
    assert LoadStep(v)(h.value, ClashingCalls[1], gen(1)) == Failure(KeywordClash);
    assert ClashingCalls[1..][1..] == [];
  }

  /** The first edge is stored with its endpoints, the second call raises,
      and the setter leaves that one couple in the store. */
  lemma {:induction false} EdgeLoadStopsHalfway(v: Variant, g: Graph, gen: nat -> Id)
    ensures SetEdges(v, g, ClashingEdges, gen) == Failure(KeywordClash)
    ensures SetEdgesLeaves(v, g, ClashingEdges, gen).edges.Keys == {v.canon(("a", "b"))}
    ensures SetEdgesLeaves(v, g, ClashingEdges, gen).nodes.Keys == g.nodes.Keys + {"a", "b"}
  {
    ClashingEdgesPassChecks();
    var g0 := g.(edges := map[]);
    ClashingCallsStop(v, g0, gen);
    assert ApplyEdgeCalls(v, g0, ClashingCalls, gen, 0) == Replay(LoadStep(v), g0, ClashingCalls, gen, 0);
  }
}
