/** What a successful bulk load leaves in the stores: replaying a dictionary
    stores exactly its contents, replaying a list of couples never collides
    when the generated identifiers are fresh, and a load call agrees with
    the public `add_edge`. */
module BulkProperties {
  import opened Wrappers
  import opened Stores
  import opened Validation
  import opened Engine
  import opened Bulk

  /** The keys of a dictionary input are pairwise different, as they are in
      any Python dictionary. */
  predicate DistinctKeys(es: seq<(Value, Value)>) {
    forall i, j | 0 <= i < j < |es| :: es[i].0 != es[j].0
  }

  /** Keyword expansion succeeds for every parallel edge of an entry. */
  predicate Expandable(inner: seq<(Value, Value)>) {
    forall j | 0 <= j < |inner| :: inner[j].1.Dict? && Keywords(inner[j].1.entries, EdgeArguments).Success?
  }

  /** Reference reading of a dictionary of parallel edges: identifier to
      expanded attributes. */
  function MultiplesOf(inner: seq<(Value, Value)>): Multiples
    requires forall j | 0 <= j < |inner| :: inner[j].0.Ident?
    requires Expandable(inner)
  {
    if inner == [] then map[]
    else
      MultiplesOf(inner[1..])[inner[0].0.id := Keywords(inner[0].1.entries, EdgeArguments).value.attrs]
  }

  /** The identifiers of the reference reading are the dictionary's keys. */
  lemma {:induction false} MultiplesOfKeys(inner: seq<(Value, Value)>)
    requires forall j | 0 <= j < |inner| :: inner[j].0.Ident?
    requires Expandable(inner)
    ensures forall e :: e in MultiplesOf(inner) <==> exists j | 0 <= j < |inner| :: inner[j].0 == Ident(e)
    decreases |inner|
  {
    if inner != [] {
      var rest := inner[1..];
      assert forall j | 1 <= j < |inner| :: inner[j] == rest[j - 1];
      MultiplesOfKeys(rest);
      forall e ensures e in MultiplesOf(inner) <==> exists j | 0 <= j < |inner| :: inner[j].0 == Ident(e) {
        if exists j | 0 <= j < |inner| :: inner[j].0 == Ident(e) {
          var j :| 0 <= j < |inner| && inner[j].0 == Ident(e);
          if j > 0 {
            assert rest[j - 1].0 == Ident(e);
          }
        }
      }
    }
  }

  /** Reference reading of a whole edge dictionary. */
  function EdgesOf(es: seq<(Value, Value)>): Edges
    requires AdmissibleEdgeDict(es)
    requires forall i | 0 <= i < |es| :: Expandable(es[i].1.entries)
  {
    if es == [] then map[]
    else
      assert forall i | 1 <= i < |es| :: es[i] == es[1..][i - 1];
      EdgesOf(es[1..])[CoupleOf(es[0].0) := MultiplesOf(es[0].1.entries)]
  }

  /** The couples of the reference reading are the dictionary's keys. */
  lemma {:induction false} EdgesOfKeys(es: seq<(Value, Value)>)
    requires AdmissibleEdgeDict(es)
    requires forall i | 0 <= i < |es| :: Expandable(es[i].1.entries)
    ensures forall c :: c in EdgesOf(es) <==> exists i | 0 <= i < |es| :: CoupleOf(es[i].0) == c
    decreases |es|
  {
    if es != [] {
      var rest := es[1..];
      assert forall i | 1 <= i < |es| :: es[i] == rest[i - 1];
      EdgesOfKeys(rest);
      forall c ensures c in EdgesOf(es) <==> exists i | 0 <= i < |es| :: CoupleOf(es[i].0) == c {
        if exists i | 0 <= i < |es| :: CoupleOf(es[i].0) == c {
          var i :| 0 <= i < |es| && CoupleOf(es[i].0) == c;
          if i > 0 {
            assert CoupleOf(rest[i - 1].0) == c;
          }
        }
      }
    }
  }

  /* -------------------------------------------------------------- one call */

  /** A load call is `add_edge` with missing endpoints added, nothing
      recomputed, and `replace` set by anything but `False`; it differs only
      in how a wrapped call reports a duplicate. */
  lemma {:induction false} LoadEdgeIsAddEdge(v: Variant, g: Graph, call: EdgeCall, generated: Id)
    requires Keywords(call.attrs, EdgeArguments).Success?
    ensures var kw := Keywords(call.attrs, EdgeArguments).value;
      var a := AddEdge(v, g, call.l, call.r, call.id, generated, kw.replace != Flag(false), true, false, kw.attrs);
      var r := LoadEdge(v, g, call, generated);
      && (r.Success? <==> a.Success?)
      && (a.Success? ==> r.value == a.value.0)
      && (a.Failure? && !call.wrapped ==> r.error == a.error)
      && (a.Failure? && call.wrapped ==> r.error == Invalid(DuplicationInEdgeIdentifiers(call.l, call.r)))
  {
  }

  /** The stores after one successful load call. */
  lemma {:induction false} LoadEdgeStores(v: Variant, g: Graph, call: EdgeCall, generated: Id)
    requires LoadEdge(v, g, call, generated).Success?
    ensures Keywords(call.attrs, EdgeArguments).Success?
    ensures LoadEdge(v, g, call, generated).value
         == Insert(v, g, call.l, call.r, call.id.GetOr(generated), Keywords(call.attrs, EdgeArguments).value.attrs, true)
  {
  }

  /** Replaying two runs of calls one after the other is replaying their
      concatenation: the second run starts from the first run's graph, with
      the generated identifiers numbered on. */
  lemma {:induction false} ReplayAppend(
    step: (Graph, EdgeCall, Id) -> Result<Graph, Error>, g: Graph, a: seq<EdgeCall>, b: seq<EdgeCall>,
    gen: nat -> Id, k: nat, h: Graph, j: nat)
    requires Replay(step, g, a, gen, k) == Success(h)
    requires j == k + |a|
    ensures Replay(step, g, a + b, gen, k) == Replay(step, h, b, gen, j)
    decreases |a|
  {
    if a == [] {
      assert a + b == b;
    } else {
      assert (a + b)[0] == a[0];
      assert (a + b)[1..] == a[1..] + b;
      ReplayAppend(step, step(g, a[0], gen(k)).value, a[1..], b, gen, k + 1, h, j);
    }
  }

  /** A run that fails stops the concatenation at the same error. */
  lemma {:induction false} ReplayAppendFails(
    step: (Graph, EdgeCall, Id) -> Result<Graph, Error>, g: Graph, a: seq<EdgeCall>, b: seq<EdgeCall>,
    gen: nat -> Id, k: nat)
    requires Replay(step, g, a, gen, k).Failure?
    ensures Replay(step, g, a + b, gen, k) == Replay(step, g, a, gen, k)
    decreases |a|
  {
    assert (a + b)[0] == a[0];
    assert (a + b)[1..] == a[1..] + b;
    var r := step(g, a[0], gen(k));
    if r.Success? {
      ReplayAppendFails(step, r.value, a[1..], b, gen, k + 1);
    }
  }

  /* ------------------------------------------------------ dictionary form */

  /** The parallel edges under `c`, or none; `InnerOf` for any map of maps. */
  function Within<K, E, A>(m: map<K, map<E, A>>, c: K): map<E, A> {
    if c in m then m[c] else map[]
  }

  /** Storing one parallel edge and then the rest of a couple's dictionary
      stores the whole dictionary, when the rest does not repeat the first
      identifier. */
  lemma {:induction false} StoreInTwoSteps<K, E, A>(
    e0: map<K, map<E, A>>, e1: map<K, map<E, A>>, e2: map<K, map<E, A>>, c: K, id: E, a: A, rest: map<E, A>)
    requires id !in rest
    requires e1 == e0[c := Within(e0, c)[id := a]]
    requires e2 == e1[c := Within(e1, c) + rest]
    ensures e2 == e0[c := Within(e0, c) + rest[id := a]]
  {
    var before := Within(e0, c);
    assert Within(e1, c) == before[id := a];
    assert before[id := a] + rest == before + rest[id := a];
  }

  lemma {:induction false} StoreInOneStep<K, E, A>(e0: map<K, map<E, A>>, e1: map<K, map<E, A>>, c: K, id: E, a: A)
    requires e1 == e0[c := Within(e0, c)[id := a]]
    ensures e1 == e0[c := Within(e0, c) + map[id := a]]
  {
    assert Within(e0, c)[id := a] == Within(e0, c) + map[id := a];
  }

  /** The attributes the first parallel edge of `inner` is stored with. */
  function FirstAttrs(inner: seq<(Value, Value)>): Attrs
    requires inner != [] && Expandable(inner)
  {
    Keywords(inner[0].1.entries, EdgeArguments).value.attrs
  }

  /** The first call of a couple's run stores its parallel edge, after
      which the rest of the run follows. */
  lemma {:induction false} InnerStep(v: Variant, g: Graph, l: Id, r: Id, inner: seq<(Value, Value)>, gen: nat -> Id, k: nat)
    returns (g1: Graph)
    requires v.canon((l, r)) == (l, r)
    requires inner != []
    requires forall j | 0 <= j < |inner| :: inner[j].0.Ident?
    requires Expandable(inner)
    requires inner[0].0.id !in InnerOf(g.edges, (l, r))
    ensures g1.edges == g.edges[(l, r) := Within(g.edges, (l, r))[inner[0].0.id := FirstAttrs(inner)]]
    ensures Replay(LoadStep(v), g, InnerCalls(l, r, inner), gen, k)
         == Replay(LoadStep(v), g1, InnerCalls(l, r, inner[1..]), gen, k + 1)
  {
    var calls := InnerCalls(l, r, inner);
    assert calls[0] == EdgeCall(l, r, Some(inner[0].0.id), inner[0].1.entries, true);
    assert !EdgeExists(g, (l, r), inner[0].0.id);
    g1 := Insert(v, g, l, r, inner[0].0.id, FirstAttrs(inner), true);
    assert LoadStep(v)(g, calls[0], gen(k)) == LoadEdge(v, g, calls[0], gen(k)) == Success(g1);
    assert calls[1..] == InnerCalls(l, r, inner[1..]);
  }

  lemma {:induction false} MultiplesCons(inner: seq<(Value, Value)>)
    requires inner != []
    requires forall j | 0 <= j < |inner| :: inner[j].0.Ident?
    requires Expandable(inner) && DistinctKeys(inner)
    ensures inner[0].0.id !in MultiplesOf(inner[1..])
    ensures MultiplesOf(inner) == MultiplesOf(inner[1..])[inner[0].0.id := FirstAttrs(inner)]
  {
    MultiplesFirstFresh(inner);
  }

  /** The first identifier of a dictionary of parallel edges with distinct
      keys is not among the identifiers of the rest. */
  lemma {:induction false} MultiplesFirstFresh(inner: seq<(Value, Value)>)
    requires inner != []
    requires forall j | 0 <= j < |inner| :: inner[j].0.Ident?
    requires Expandable(inner) && DistinctKeys(inner)
    ensures inner[0].0.id !in MultiplesOf(inner[1..])
  {
    var rest := inner[1..];
    forall j | 0 <= j < |rest| ensures rest[j].0 != Ident(inner[0].0.id) {
      assert rest[j] == inner[j + 1];
    }
    MultiplesOfKeys(rest);
  }

  /** A couple's dictionary of parallel edges that loads without a
      collision: identifier keys, each expandable, none repeated and none
      stored under the couple yet. */
  predicate FreshMultiples(e: Edges, c: Couple, inner: seq<(Value, Value)>) {
    && (forall j | 0 <= j < |inner| :: inner[j].0.Ident?)
    && Expandable(inner) && DistinctKeys(inner)
    && (forall j | 0 <= j < |inner| :: inner[j].0.id !in InnerOf(e, c))
  }

  /** After the first parallel edge is stored, the rest still loads
      without a collision. */
  lemma {:induction false} FreshMultiplesTail(e: Edges, e1: Edges, c: Couple, inner: seq<(Value, Value)>)
    requires inner != [] && FreshMultiples(e, c, inner)
    requires e1 == e[c := Within(e, c)[inner[0].0.id := FirstAttrs(inner)]]
    ensures FreshMultiples(e1, c, inner[1..])
  {
    var rest := inner[1..];
    assert forall j | 0 <= j < |rest| :: rest[j] == inner[j + 1];
    assert InnerOf(e1, c) == InnerOf(e, c)[inner[0].0.id := FirstAttrs(inner)];
    forall j | 0 <= j < |rest| ensures rest[j].0.id !in InnerOf(e1, c) {
      assert inner[0].0 != inner[j + 1].0;
    }
  }

  /** Loading the parallel edges of one couple, none of them stored yet,
      stores exactly the couple's dictionary next to what was there. */
  lemma {:induction false} InnerLoadStores(
    v: Variant, g: Graph, l: Id, r: Id, inner: seq<(Value, Value)>, gen: nat -> Id, k: nat)
    requires v.canon((l, r)) == (l, r)
    requires inner != [] && FreshMultiples(g.edges, (l, r), inner)
    ensures var res := Replay(LoadStep(v), g, InnerCalls(l, r, inner), gen, k);
      && res.Success?
      && res.value.edges == g.edges[(l, r) := Within(g.edges, (l, r)) + MultiplesOf(inner)]
    decreases |inner|
  {
    var id0 := inner[0].0.id;
    var a0 := FirstAttrs(inner);
    var g1 := InnerStep(v, g, l, r, inner, gen, k);
    MultiplesCons(inner);
    if |inner| == 1 {
      assert InnerCalls(l, r, inner[1..]) == [];
      StoreInOneStep(g.edges, g1.edges, (l, r), id0, a0);
    } else {
      FreshMultiplesTail(g.edges, g1.edges, (l, r), inner);
      InnerLoadStores(v, g1, l, r, inner[1..], gen, k + 1);
      var t := Replay(LoadStep(v), g1, InnerCalls(l, r, inner[1..]), gen, k + 1);
      StoreInTwoSteps(g.edges, g1.edges, t.value.edges, (l, r), id0, a0, MultiplesOf(inner[1..]));
    }
  }

  /** Storing one key first and then a map without that key is storing the
      map with the key added. */
  lemma {:induction false} UpdateThenMerge<K, V>(e: map<K, V>, c: K, x: V, rest: map<K, V>)
    requires c !in rest
    ensures e[c := x] + rest == e + rest[c := x]
  {
  }

  /** An edge dictionary that loads without a collision: it passes the
      checks, its couples and each couple's identifiers are pairwise
      different, every attribute dictionary expands, and every couple is
      canonical and not stored yet. */
  predicate FreshDict(v: Variant, e: Edges, es: seq<(Value, Value)>) {
    && AdmissibleEdgeDict(es) && DistinctKeys(es)
    && (forall i | 0 <= i < |es| :: DistinctKeys(es[i].1.entries) && Expandable(es[i].1.entries))
    && (forall i | 0 <= i < |es| :: v.canon(CoupleOf(es[i].0)) == CoupleOf(es[i].0))
    && (forall i | 0 <= i < |es| :: CoupleOf(es[i].0) !in e)
  }

  /** Different couple keys name different couples. */
  lemma {:induction false} CoupleOfInjective(x: Value, y: Value)
    requires IsCouple(x) && IsCouple(y) && x != y
    ensures CoupleOf(x) != CoupleOf(y)
  {
    assert x.items == [x.items[0], x.items[1]];
    assert y.items == [y.items[0], y.items[1]];
  }

  /** Distinct couple keys name distinct couples. */
  lemma {:induction false} FirstCoupleUnique(es: seq<(Value, Value)>)
    requires es != []
    requires forall i | 0 <= i < |es| :: IsCouple(es[i].0)
    requires DistinctKeys(es)
    ensures forall i | 0 <= i < |es[1..]| :: CoupleOf(es[1..][i].0) != CoupleOf(es[0].0)
  {
    forall i | 0 <= i < |es[1..]| ensures CoupleOf(es[1..][i].0) != CoupleOf(es[0].0) {
      assert es[1..][i] == es[i + 1];
      CoupleOfInjective(es[0].0, es[i + 1].0);
    }
  }

  /** One entry of a dictionary loads its couple's parallel edges. */
  lemma {:induction false} EntryStep(v: Variant, g: Graph, key: Value, m: Value, gen: nat -> Id, k: nat) returns (h: Graph)
    requires IsCouple(key) && m.Dict? && m.entries != []
    requires v.canon(CoupleOf(key)) == CoupleOf(key) && CoupleOf(key) !in g.edges
    requires FreshMultiples(g.edges, CoupleOf(key), m.entries)
    ensures Replayable(key, m)
    ensures Replay(LoadStep(v), g, EntryCalls(key, m), gen, k) == Success(h)
    ensures h.edges == g.edges[CoupleOf(key) := MultiplesOf(m.entries)]
  {
    var c := CoupleOf(key);
    assert EntryCalls(key, m) == InnerCalls(c.0, c.1, m.entries);
    InnerLoadStores(v, g, c.0, c.1, m.entries, gen, k);
    h := Replay(LoadStep(v), g, InnerCalls(c.0, c.1, m.entries), gen, k).value;
    assert Within(g.edges, c) + MultiplesOf(m.entries) == MultiplesOf(m.entries);
  }

  /** The rest of the dictionary still loads without a collision once the
      first couple is stored. */
  lemma {:induction false} FreshDictTail(v: Variant, e: Edges, e1: Edges, es: seq<(Value, Value)>)
    requires es != [] && FreshDict(v, e, es)
    requires e1.Keys == e.Keys + {CoupleOf(es[0].0)}
    ensures FreshDict(v, e1, es[1..])
  {
    var rest := es[1..];
    assert forall i | 0 <= i < |rest| :: rest[i] == es[i + 1];
    forall i | 0 <= i < |rest| ensures CoupleOf(rest[i].0) !in e1 {
      assert es[0].0 != es[i + 1].0;
      CoupleOfInjective(es[0].0, es[i + 1].0);
    }
  }

  /** The first couple of a dictionary with distinct keys is not among the
      couples of the rest. */
  lemma {:induction false} EdgesFirstFresh(es: seq<(Value, Value)>)
    requires es != []
    requires AdmissibleEdgeDict(es) && DistinctKeys(es)
    requires forall i | 0 <= i < |es| :: Expandable(es[i].1.entries)
    ensures CoupleOf(es[0].0) !in EdgesOf(es[1..])
  {
    FirstCoupleUnique(es);
    EdgesOfKeys(es[1..]);
  }

  /** Loading the first entry of a dictionary leaves the rest to load on
      top of it, with the same final contents. */
  lemma {:induction false} DictHead(v: Variant, g: Graph, es: seq<(Value, Value)>, gen: nat -> Id, k: nat)
    returns (h: Graph, k2: nat)
    requires es != [] && FreshDict(v, g.edges, es)
    ensures forall i | 0 <= i < |es| :: Replayable(es[i].0, es[i].1)
    ensures FreshDict(v, h.edges, es[1..])
    ensures Replay(LoadStep(v), g, DictCalls(es), gen, k) == Replay(LoadStep(v), h, DictCalls(es[1..]), gen, k2)
    ensures g.edges + EdgesOf(es) == h.edges + EdgesOf(es[1..])
  {
    h := DictFirstEntry(v, g, es, gen, k);
    k2 := DictReplayHead(v, g, es, gen, k, h);
    FreshDictTail(v, g.edges, h.edges, es);
    DictHeadEdges(g.edges, h.edges, es);
  }

  /** The first entry of a fresh dictionary loads its couple exactly. */
  lemma {:induction false} DictFirstEntry(v: Variant, g: Graph, es: seq<(Value, Value)>, gen: nat -> Id, k: nat)
    returns (h: Graph)
    requires es != [] && FreshDict(v, g.edges, es)
    ensures forall i | 0 <= i < |es| :: Replayable(es[i].0, es[i].1)
    ensures Replay(LoadStep(v), g, EntryCalls(es[0].0, es[0].1), gen, k) == Success(h)
    ensures h.edges == g.edges[CoupleOf(es[0].0) := MultiplesOf(es[0].1.entries)]
  {
    DictCallsCarryIdentifiers(es);
    assert es[0].1.entries != [];
    assert FreshMultiples(g.edges, CoupleOf(es[0].0), es[0].1.entries);
    h := EntryStep(v, g, es[0].0, es[0].1, gen, k);
  }

  /** Once the first entry's calls have loaded, the replay of a dictionary
      continues with the rest of its entries. */
  lemma {:induction false} DictReplayHead(v: Variant, g: Graph, es: seq<(Value, Value)>, gen: nat -> Id, k: nat, h: Graph)
    returns (k2: nat)
    requires es != [] && forall i | 0 <= i < |es| :: Replayable(es[i].0, es[i].1)
    requires Replay(LoadStep(v), g, EntryCalls(es[0].0, es[0].1), gen, k) == Success(h)
    ensures Replay(LoadStep(v), g, DictCalls(es), gen, k) == Replay(LoadStep(v), h, DictCalls(es[1..]), gen, k2)
  {
    var first := EntryCalls(es[0].0, es[0].1);
    k2 := k + |first|;
    ReplayAppend(LoadStep(v), g, first, DictCalls(es[1..]), gen, k, h, k2);
  }

  /** Storing the first couple and then the rest is storing the whole
      dictionary. */
  lemma {:induction false} DictHeadEdges(e: Edges, e1: Edges, es: seq<(Value, Value)>)
    requires es != [] && AdmissibleEdgeDict(es) && DistinctKeys(es)
    requires forall i | 0 <= i < |es| :: Expandable(es[i].1.entries)
    requires e1 == e[CoupleOf(es[0].0) := MultiplesOf(es[0].1.entries)]
    ensures e + EdgesOf(es) == e1 + EdgesOf(es[1..])
  {
    EdgesFirstFresh(es);
    UpdateThenMerge(e, CoupleOf(es[0].0), MultiplesOf(es[0].1.entries), EdgesOf(es[1..]));
  }

  /** Loading an edge dictionary whose couples are not stored yet stores
      exactly its contents: every couple with exactly its parallel edges and
      their expanded attributes. */
  lemma {:induction false} DictLoadStores(v: Variant, g: Graph, es: seq<(Value, Value)>, gen: nat -> Id, k: nat)
    requires FreshDict(v, g.edges, es)
    ensures forall i | 0 <= i < |es| :: Replayable(es[i].0, es[i].1)
    ensures Replay(LoadStep(v), g, DictCalls(es), gen, k).Success?
    ensures Replay(LoadStep(v), g, DictCalls(es), gen, k).value.edges == g.edges + EdgesOf(es)
    decreases |es|
  {
    DictCallsCarryIdentifiers(es);
    if es == [] {
      assert g.edges + map[] == g.edges;
    } else {
      var h, k2 := DictHead(v, g, es, gen, k);
      DictLoadStores(v, h, es[1..], gen, k2);
    }
  }
}
