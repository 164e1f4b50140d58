/** The two setters end to end: what a successful `nodes` or `edges`
    assignment leaves in the stores, for each input form. */
module Setters {
  import opened Wrappers
  import opened Stores
  import opened Validation
  import opened Engine
  import opened Bulk
  import opened BulkProperties

  /* --------------------------------------------------------- edge setter */

  /** A dictionary of edges with distinct identifiers, expandable attribute
      dictionaries and canonical couples is stored exactly: the edge store
      becomes the dictionary read as couple to identifier to attributes. */
  lemma {:induction false} SetEdgesStoresDict(v: Variant, g: Graph, es: seq<(Value, Value)>, gen: nat -> Id)
    requires FreshDict(v, map[], es)
    ensures SetEdges(v, g, Dict(es), gen).Success?
    ensures SetEdges(v, g, Dict(es), gen).value.edges == EdgesOf(es)
    ensures forall n | n in g.nodes :: SetEdges(v, g, Dict(es), gen).value.nodes[n] == g.nodes[n]
  {
    var g0 := g.(edges := map[]);
    DictLoadStores(v, g0, es, gen, 0);
    assert ApplyEdgeCalls(v, g0, DictCalls(es), gen, 0) == Replay(LoadStep(v), g0, DictCalls(es), gen, 0);
    assert map[] + EdgesOf(es) == EdgesOf(es);
  }

  /** No two generated identifiers coincide. */
  ghost predicate Injective(gen: nat -> Id) {
    forall j, j' | j != j' :: gen(j) != gen(j')
  }

  /** No identifier generated from call `k` on is stored yet. */
  ghost predicate FreshFrom(e: Edges, gen: nat -> Id, k: nat) {
    forall c, id, j | c in e && id in e[c] && k <= j :: gen(j) != id
  }

  /** Every parallel edge of `e` is still in `e2`, with the same attributes. */
  ghost predicate Keeps<K, E, A>(e: map<K, map<E, A>>, e2: map<K, map<E, A>>) {
    forall c, id | c in e && id in e[c] :: c in e2 && id in e2[c] && e2[c][id] == e[c][id]
  }

  lemma {:induction false} KeepsTransitive<K, E, A>(e0: map<K, map<E, A>>, e1: map<K, map<E, A>>, e2: map<K, map<E, A>>)
    requires Keeps(e0, e1) && Keeps(e1, e2)
    ensures Keeps(e0, e2)
  {
  }

  /** Storing an identifier that is not there yet keeps every other
      parallel edge and adds only that one. */
  lemma {:induction false} StoreFresh<K, E, A>(e0: map<K, map<E, A>>, e1: map<K, map<E, A>>, c: K, id: E, a: A)
    requires !(c in e0 && id in e0[c])
    requires e1 == e0[c := Within(e0, c)[id := a]]
    ensures Keeps(e0, e1)
    ensures c in e1 && id in e1[c] && e1[c][id] == a
    ensures forall d, x | d in e1 && x in e1[d] :: (d in e0 && x in e0[d]) || (d == c && x == id)
  {
  }

  /** One call of the list form: a generated identifier that is not stored
      yet never collides. */
  lemma {:induction false} ListStep(v: Variant, g: Graph, l: Id, r: Id, gen: nat -> Id, k: nat) returns (h: Graph)
    requires Injective(gen) && FreshFrom(g.edges, gen, k)
    ensures LoadStep(v)(g, EdgeCall(l, r, None, [], false), gen(k)) == Success(h)
    ensures h.edges == g.edges[v.canon((l, r)) := Within(g.edges, v.canon((l, r)))[gen(k) := map[]]]
  {
    assert Keywords([], EdgeArguments) == Success(Kwargs(map[], Flag(false)));
    assert !EdgeExists(g, v.canon((l, r)), gen(k));
    h := Insert(v, g, l, r, gen(k), map[], true);
  }

  /** The freshness of later identifiers survives storing `gen(k)`. */
  lemma {:induction false} FreshAfterStore(e0: Edges, e1: Edges, c: Couple, gen: nat -> Id, k: nat)
    requires Injective(gen) && FreshFrom(e0, gen, k)
    requires e1 == e0[c := Within(e0, c)[gen(k) := map[]]]
    ensures FreshFrom(e1, gen, k + 1)
    ensures !(c in e0 && gen(k) in e0[c])
  {
    StoreFresh(e0, e1, c, gen(k), map[]);
  }

  /** What storing a run of parallel edges, `ids[i]` under `cps[i]`, each
      with attributes `a`, leaves in a store that held `e0`: everything
      already stored, every edge of the run, and nothing else. */
  ghost predicate StoredRun<K, E, A>(e0: map<K, map<E, A>>, e: map<K, map<E, A>>, cps: seq<K>, ids: seq<E>, a: A)
    requires |cps| == |ids|
  {
    && Keeps(e0, e)
    && (forall i | 0 <= i < |cps| :: cps[i] in e && ids[i] in e[cps[i]] && e[cps[i]][ids[i]] == a)
    && (forall c, id | c in e && id in e[c] && !(c in e0 && id in e0[c]) ::
          exists i | 0 <= i < |cps| :: c == cps[i] && id == ids[i])
  }

  /** Storing the first edge of a run, then the rest, stores the run. */
  lemma {:induction false} StoredRunCons<K, E, A>(
    e0: map<K, map<E, A>>, e1: map<K, map<E, A>>, e: map<K, map<E, A>>, cps: seq<K>, ids: seq<E>, a: A)
    requires |cps| == |ids| && cps != []
    requires !(cps[0] in e0 && ids[0] in e0[cps[0]])
    requires e1 == e0[cps[0] := Within(e0, cps[0])[ids[0] := a]]
    requires StoredRun(e1, e, cps[1..], ids[1..], a)
    ensures StoredRun(e0, e, cps, ids, a)
  {
    StoreFresh(e0, e1, cps[0], ids[0], a);
    KeepsTransitive(e0, e1, e);
    forall i | 0 < i < |cps| ensures cps[i] in e && ids[i] in e[cps[i]] && e[cps[i]][ids[i]] == a {
      assert cps[1..][i - 1] == cps[i] && ids[1..][i - 1] == ids[i];
    }
    forall c, id | c in e && id in e[c] && !(c in e0 && id in e0[c])
      ensures exists i | 0 <= i < |cps| :: c == cps[i] && id == ids[i]
    {
      if !(c in e1 && id in e1[c]) {
        var i :| 0 <= i < |cps| - 1 && c == cps[1..][i] && id == ids[1..][i];
        assert c == cps[i + 1] && id == ids[i + 1];
      }
    }
  }

  /** The canonical couples of a list of couples. */
  function ListCouples(v: Variant, cs: seq<Value>): (cps: seq<Couple>)
    requires forall i | 0 <= i < |cs| :: IsCouple(cs[i])
    ensures |cps| == |cs|
    ensures forall i | 0 <= i < |cs| :: cps[i] == v.canon(CoupleOf(cs[i]))
  {
    seq(|cs|, i requires 0 <= i < |cs| => v.canon(CoupleOf(cs[i])))
  }

  /** The identifiers generated for `n` calls numbered from `k`. */
  function Generated(gen: nat -> Id, k: nat, n: nat): (ids: seq<Id>)
    ensures |ids| == n
    ensures forall i | 0 <= i < n :: ids[i] == gen(k + i)
  {
    seq(n, i requires 0 <= i < n => gen(k + i))
  }

  /** The couples and identifiers of a list load, split after the first. */
  lemma {:induction false} ListRunTail(v: Variant, cs: seq<Value>, gen: nat -> Id, k: nat, k1: nat)
    requires cs != [] && k1 == k + 1
    requires forall i | 0 <= i < |cs| :: IsCouple(cs[i])
    ensures ListCouples(v, cs)[0] == v.canon(CoupleOf(cs[0]))
    ensures ListCouples(v, cs)[1..] == ListCouples(v, cs[1..])
    ensures Generated(gen, k, |cs|)[0] == gen(k)
    ensures Generated(gen, k, |cs|)[1..] == Generated(gen, k1, |cs| - 1)
  {
    var ids := Generated(gen, k, |cs|);
    forall i | 0 <= i < |cs| - 1 ensures ids[1..][i] == gen(k1 + i) {
      assert k + (i + 1) == k1 + i;
    }
  }

  /** The first call of a list load stores its edge, after which the rest
      of the list follows with the identifiers numbered on. */
  lemma {:induction false} ListHead(v: Variant, g: Graph, cs: seq<Value>, gen: nat -> Id, k: nat) returns (h: Graph, k1: nat)
    requires cs != []
    requires forall i | 0 <= i < |cs| :: IsCouple(cs[i])
    requires Injective(gen) && FreshFrom(g.edges, gen, k)
    ensures k1 == k + 1 && FreshFrom(h.edges, gen, k1)
    ensures var c := v.canon(CoupleOf(cs[0]));
      && !(c in g.edges && gen(k) in g.edges[c])
      && h.edges == g.edges[c := Within(g.edges, c)[gen(k) := map[]]]
    ensures Replay(LoadStep(v), g, ListCalls(cs), gen, k) == Replay(LoadStep(v), h, ListCalls(cs[1..]), gen, k1)
  {
    var calls := ListCalls(cs);
    var couple := CoupleOf(cs[0]);
    h := ListStep(v, g, couple.0, couple.1, gen, k);
    k1 := k + 1;
    FreshAfterStore(g.edges, h.edges, v.canon(couple), gen, k);
    assert calls[0] == EdgeCall(couple.0, couple.1, None, [], false);
    assert calls[1..] == ListCalls(cs[1..]);
  }

  /** Replaying the list form from call `k` with fresh, distinct generated
      identifiers never collides: it stores one new parallel edge without
      attributes per listed couple, repeated couples included, under the
      identifier generated for that call, keeps everything already stored
      and adds nothing else. */
  lemma {:induction false} ListLoadStores(v: Variant, g: Graph, cs: seq<Value>, gen: nat -> Id, k: nat)
    requires forall i | 0 <= i < |cs| :: IsCouple(cs[i])
    requires Injective(gen) && FreshFrom(g.edges, gen, k)
    ensures Replay(LoadStep(v), g, ListCalls(cs), gen, k).Success?
    ensures StoredRun(g.edges, Replay(LoadStep(v), g, ListCalls(cs), gen, k).value.edges,
                      ListCouples(v, cs), Generated(gen, k, |cs|), map[])
    decreases |cs|
  {
    if cs != [] {
      var h, k1 := ListHead(v, g, cs, gen, k);
      ListLoadStores(v, h, cs[1..], gen, k1);
      ListRunTail(v, cs, gen, k, k1);
      var r := Replay(LoadStep(v), h, ListCalls(cs[1..]), gen, k1);
      StoredRunCons(g.edges, h.edges, r.value.edges, ListCouples(v, cs), Generated(gen, k, |cs|), map[]);
    }
  }

  /** A list of couples assigned to `edges` always loads when the generated
      identifiers are distinct: the store is emptied first, so nothing can
      collide, and the store then holds exactly one parallel edge per listed
      couple, under the identifier generated for its call. */
  lemma {:induction false} SetEdgesStoresList(v: Variant, g: Graph, cs: seq<Value>, gen: nat -> Id)
    requires forall i | 0 <= i < |cs| :: IsCouple(cs[i])
    requires Injective(gen)
    ensures SetEdges(v, g, List(cs), gen).Success?
    ensures StoredRun(map[], SetEdges(v, g, List(cs), gen).value.edges, ListCouples(v, cs), Generated(gen, 0, |cs|), map[])
  {
    var g0 := g.(edges := map[]);
    ListLoadStores(v, g0, cs, gen, 0);
    assert ApplyEdgeCalls(v, g0, ListCalls(cs), gen, 0) == Replay(LoadStep(v), g0, ListCalls(cs), gen, 0);
  }

  /* --------------------------------------------------------- node setter */

  /** Identifier-only calls pass `replace=True`, so they never raise and
      leave every node without attributes or calculated fields, a repeated
      identifier included. */
  lemma {:induction false} ListedLoad(g: Graph, calls: seq<NodeCall>)
    requires forall i | 0 <= i < |calls| :: calls[i].Listed?
    requires forall n | n in g.nodes :: g.nodes[n] == BareNode
    ensures ApplyNodeCalls(g, calls).Success?
    ensures forall n | n in ApplyNodeCalls(g, calls).value.nodes :: ApplyNodeCalls(g, calls).value.nodes[n] == BareNode
    decreases |calls|
  {
    if calls != [] {
      var h := PlaceNode(g, calls[0].id, Flag(true), map[]);
      assert h.Success?;
      assert forall i | 0 <= i < |calls| - 1 :: calls[1..][i] == calls[i + 1];
      ListedLoad(h.value, calls[1..]);
    }
  }

  /** A list, tuple or string of identifiers assigned to `nodes` always
      loads: the store then holds exactly the identifiers iterated, each
      with an empty record, and the edge store is untouched. */
  lemma {:induction false} SetNodesStoresList(g: Graph, x: Value)
    requires IsSequence(x)
    requires forall i | 0 <= i < |Items(x)| :: Items(x)[i].Ident?
    ensures SetNodes(g, x).Success?
    ensures SetNodes(g, x).value.edges == g.edges
    ensures forall n :: n in SetNodes(g, x).value.nodes <==> Ident(n) in Items(x)
    ensures forall n | n in SetNodes(g, x).value.nodes :: SetNodes(g, x).value.nodes[n] == BareNode
  {
    var ns := Items(x);
    var calls := ValidateNodes(x).value;
    ListedLoad(g.(nodes := map[]), calls);
    forall n ensures n in NodeCallIds(calls) <==> Ident(n) in ns {
      if Ident(n) in ns {
        var i :| 0 <= i < |ns| && ns[i] == Ident(n);
        assert calls[i].id == n;
      }
    }
  }

  /** A string is iterated character by character: as `nodes` it stores
      one node per character. */
  lemma {:induction false} StringNodes(g: Graph)
    ensures SetNodes(g, Ident("ab")).Success?
    ensures SetNodes(g, Ident("ab")).value.nodes.Keys == {"a", "b"}
  {
    var x := Ident("ab");
    assert Items(x) == [Ident("a"), Ident("b")];
    SetNodesStoresList(g, x);
    var ks := SetNodes(g, x).value.nodes.Keys;
    assert "a" in ks && "b" in ks;
  }

  /** As `edges`, a string's first character is not a couple, and the empty
      string loads no edges at all. */
  lemma {:induction false} StringEdges(v: Variant, g: Graph, gen: nat -> Id)
    ensures ValidateEdges(Ident("ab")) == Failure(WrongTypeOfCouple)
    ensures SetEdges(v, g, Ident(""), gen) == Success(g.(edges := map[]))
  {
    assert Items(Ident("ab"))[0] == Ident("a");
    assert Items(Ident("")) == [];
    assert ApplyEdgeCalls(v, g.(edges := map[]), [], gen, 0) == Success(g.(edges := map[]));
  }

  /** `self` is already bound when a loader expands an attribute
      dictionary, so an attribute named `self` clashes in both setters. */
  lemma {:induction false} SelfAttributeClashes(v: Variant, g: Graph, l: Id, r: Id, generated: Id)
    ensures SetNodes(g, Dict([(Ident("a"), Dict([(Ident("self"), Other(1))]))])) == Failure(KeywordClash)
    ensures LoadEdge(v, g, EdgeCall(l, r, None, [(Ident("self"), Other(1))], false), generated) == Failure(KeywordClash)
  {
    var x := Dict([(Ident("a"), Dict([(Ident("self"), Other(1))]))]);
    assert ValidateNodes(x).value == [Keyed("a", [(Ident("self"), Other(1))])];
  }

  /** Keyword calls for distinct new identifiers load exactly when every
      attribute dictionary expands, and otherwise report a keyword clash. */
  lemma {:induction false} KeyedLoad(g: Graph, calls: seq<NodeCall>)
    requires forall i | 0 <= i < |calls| :: calls[i].Keyed? && calls[i].id !in g.nodes
    requires forall i, j | 0 <= i < j < |calls| :: calls[i].id != calls[j].id
    ensures ApplyNodeCalls(g, calls).Success? <==>
      forall i | 0 <= i < |calls| :: Keywords(calls[i].entries, NodeArguments).Success?
    ensures ApplyNodeCalls(g, calls).Failure? ==> ApplyNodeCalls(g, calls).error == KeywordClash
    decreases |calls|
  {
    if calls != [] {
      if Keywords(calls[0].entries, NodeArguments).Success? {
        var rest := calls[1..];
        var h := KeyedHead(g, calls);
        KeyedLoad(h, rest);
        assert forall i | 0 < i < |calls| :: calls[i] == rest[i - 1];
      } else {
        KeyedHeadFails(g, calls);
      }
    }
  }

  /** When every dictionary expands, such a load stores each expansion under
      its identifier with no calculated fields. */
  lemma {:induction false} KeyedLoadStores(g: Graph, calls: seq<NodeCall>)
    requires forall i | 0 <= i < |calls| :: calls[i].Keyed? && calls[i].id !in g.nodes
    requires forall i, j | 0 <= i < j < |calls| :: calls[i].id != calls[j].id
    requires forall i | 0 <= i < |calls| :: Keywords(calls[i].entries, NodeArguments).Success?
    ensures ApplyNodeCalls(g, calls).Success?
    ensures forall i | 0 <= i < |calls| ::
      ApplyNodeCalls(g, calls).value.nodes[calls[i].id]
      == NodeRec(Keywords(calls[i].entries, NodeArguments).value.attrs, None, None)
    decreases |calls|
  {
    if calls != [] {
      var rest := calls[1..];
      var h := KeyedHead(g, calls);
      assert forall i | 0 < i < |calls| :: calls[i] == rest[i - 1];
      KeyedLoadStores(h, rest);
    }
  }

  /** A first keyword call whose dictionary does not expand stops the load. */
  lemma {:induction false} KeyedHeadFails(g: Graph, calls: seq<NodeCall>)
    requires calls != [] && calls[0].Keyed?
    requires Keywords(calls[0].entries, NodeArguments).Failure?
    ensures ApplyNodeCalls(g, calls) == Failure(KeywordClash)
  {
  }

  /** The first keyword call of such a load stores its node, after which the
      rest of the calls follow. */
  lemma {:induction false} KeyedHead(g: Graph, calls: seq<NodeCall>) returns (h: Graph)
    requires calls != []
    requires forall i | 0 <= i < |calls| :: calls[i].Keyed? && calls[i].id !in g.nodes
    requires forall i, j | 0 <= i < j < |calls| :: calls[i].id != calls[j].id
    requires Keywords(calls[0].entries, NodeArguments).Success?
    ensures ApplyNodeCalls(g, calls) == ApplyNodeCalls(h, calls[1..])
    ensures calls[0].id in h.nodes
    ensures h.nodes[calls[0].id] == NodeRec(Keywords(calls[0].entries, NodeArguments).value.attrs, None, None)
    ensures calls[0].id !in NodeCallIds(calls[1..])
    ensures forall i | 0 <= i < |calls[1..]| :: calls[1..][i].Keyed? && calls[1..][i].id !in h.nodes
    ensures forall i, j | 0 <= i < j < |calls[1..]| :: calls[1..][i].id != calls[1..][j].id
  {
    var rest := calls[1..];
    assert forall i | 0 <= i < |rest| :: rest[i] == calls[i + 1];
    var kw := Keywords(calls[0].entries, NodeArguments).value;
    h := PlaceNode(g, calls[0].id, kw.replace, kw.attrs).value;
  }

  /** A dictionary assigned to `nodes` loads exactly when every attribute
      dictionary expands; it then stores each node with its expanded
      attributes and no calculated fields, and otherwise reports a keyword
      clash. */
  lemma {:induction false} SetNodesStoresDict(g: Graph, es: seq<(Value, Value)>)
    requires forall i | 0 <= i < |es| :: es[i].0.Ident? && es[i].1.Dict?
    requires DistinctKeys(es)
    ensures SetNodes(g, Dict(es)).Success? <==>
      forall i | 0 <= i < |es| :: Keywords(es[i].1.entries, NodeArguments).Success?
    ensures SetNodes(g, Dict(es)).Failure? ==> SetNodes(g, Dict(es)).error == KeywordClash
    ensures SetNodes(g, Dict(es)).Success? ==>
      forall i | 0 <= i < |es| ::
        SetNodes(g, Dict(es)).value.nodes[es[i].0.id]
        == NodeRec(Keywords(es[i].1.entries, NodeArguments).value.attrs, None, None)
  {
    var calls := ValidateNodes(Dict(es)).value;
    KeyedLoad(g.(nodes := map[]), calls);
    if forall i | 0 <= i < |es| :: Keywords(es[i].1.entries, NodeArguments).Success? {
      KeyedLoadStores(g.(nodes := map[]), calls);
    }
  }
}
