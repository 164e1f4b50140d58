/** Structural classification of a graph: loops, parallel edges and
    completeness. All three look at couple keys only, so a couple whose
    parallel edges were all deleted one by one still counts. */
module Structure {
  import opened Stores

  /** `find_loops`: every couple whose two endpoints are the same node. */
  function FindLoops(g: Graph): (loops: set<Couple>)
    ensures loops <= g.edges.Keys
    ensures forall c | c in loops :: c.0 == c.1
  {
    set c | c in g.edges && c.0 == c.1
  }

  /** `_is_pseudo`: `find_loops` yields something. */
  predicate IsPseudo(g: Graph) {
    FindLoops(g) != {}
  }

  /** A graph is a pseudograph exactly when some node carries a loop, and
      `find_loops` then yields every such loop. */
  lemma {:induction false} PseudoIffLoop(g: Graph)
    ensures IsPseudo(g) <==> exists n :: (n, n) in g.edges
    ensures forall n :: (n, n) in g.edges <==> (n, n) in FindLoops(g)
  {
    if IsPseudo(g) {
      var c :| c in FindLoops(g);
      assert (c.0, c.0) == c;
    }
    if exists n :: (n, n) in g.edges {
      var n :| (n, n) in g.edges;
      assert (n, n) in FindLoops(g);
    }
  }

  /** `_is_multi`: some couple holds more than one parallel edge. */
  predicate IsMulti(g: Graph) {
    exists c | c in g.edges :: |g.edges[c]| > 1
  }

  /** Two distinct edge identifiers under one couple make a multigraph. */
  lemma {:induction false} TwoParallelEdgesMakeMulti(g: Graph, c: Couple, e1: Id, e2: Id)
    requires c in g.edges && e1 in g.edges[c] && e2 in g.edges[c] && e1 != e2
    ensures IsMulti(g)
  {
    assert {e1, e2} <= g.edges[c].Keys;
    assert |{e1, e2}| == 2;
    assert |g.edges[c].Keys| >= 2 by {
      SubsetCard({e1, e2}, g.edges[c].Keys);
    }
  }

  /** A graph is a multigraph exactly when some couple holds two distinct
      edge identifiers. */
  lemma {:induction false} MultiIffParallelEdges(g: Graph)
    ensures IsMulti(g) <==>
      exists c, e1, e2 | c in g.edges && e1 in g.edges[c] && e2 in g.edges[c] :: e1 != e2
  {
    if IsMulti(g) {
      var c :| c in g.edges && |g.edges[c]| > 1;
      var ids := g.edges[c].Keys;
      var e1 :| e1 in ids;
      assert ids - {e1} != {} by {
        assert |ids - {e1}| == |ids| - 1;
      }
      var e2 :| e2 in ids - {e1};
      assert e1 in g.edges[c] && e2 in g.edges[c] && e1 != e2;
    } else if exists c, e1, e2 | c in g.edges && e1 in g.edges[c] && e2 in g.edges[c] :: e1 != e2 {
      var c, e1, e2 :| c in g.edges && e1 in g.edges[c] && e2 in g.edges[c] && e1 != e2;
      TwoParallelEdgesMakeMulti(g, c, e1, e2);
    }
  }

  /** The distinct unordered pairs of different endpoints that some couple
      joins, direction and multiplicity forgotten. */
  function JoinedPairs(g: Graph): set<set<Id>> {
    set c | c in g.edges && c.0 != c.1 :: {c.0, c.1}
  }

  /** `_is_complete`: as many joined pairs as a simple graph on this many
      nodes can have, n(n-1)/2. */
  predicate IsComplete(g: Graph) {
    |JoinedPairs(g)| == |g.nodes| * (|g.nodes| - 1) / 2
  }

  /** Some couple joins `a` and `b`, in either direction. */
  predicate Joined(g: Graph, a: Id, b: Id) {
    (a, b) in g.edges || (b, a) in g.edges
  }

  /** All two-element subsets of `s`. */
  function PairsOf(s: set<Id>): set<set<Id>> {
    set a, b | a in s && b in s && a != b :: {a, b}
  }

  /** The pairs that contain `x`, for partners drawn from `s`. */
  function Star(x: Id, s: set<Id>): set<set<Id>> {
    set b | b in s :: {x, b}
  }

  lemma {:induction false} SubsetCard<T>(a: set<T>, b: set<T>)
    requires a <= b
    ensures |a| <= |b|
    ensures |a| == |b| ==> a == b
  {
    assert b == a + (b - a);
    assert |b| == |a| + |b - a|;
    if |a| == |b| {
      assert |b - a| == 0;
      assert b - a == {};
    }
  }

  lemma {:induction false} StarCard(x: Id, s: set<Id>)
    requires x !in s
    ensures |Star(x, s)| == |s|
    decreases s
  {
    if s != {} {
      var y :| y in s;
      var t := s - {y};
      StarCard(x, t);
      assert Star(x, s) == Star(x, t) + {{x, y}};
      assert {x, y} !in Star(x, t);
    }
  }

  lemma {:induction false} PairArithmetic(m: int)
    ensures m * (m - 1) + 2 * m == (m + 1) * m
  {
  }

  /** The pairs of `s` are those avoiding `x` plus those through `x`. */
  lemma {:induction false} PairsSplit(s: set<Id>, x: Id)
    requires x in s
    ensures PairsOf(s) == PairsOf(s - {x}) + Star(x, s - {x})
    ensures PairsOf(s - {x}) !! Star(x, s - {x})
  {
    var t := s - {x};
    forall p | p in PairsOf(s) ensures p in PairsOf(t) + Star(x, t) {
      var a, b :| a in s && b in s && a != b && p == {a, b};
      if a == x {
        assert p in Star(x, t);
      } else if b == x {
        assert p == {x, a};
        assert p in Star(x, t);
      } else {
        assert p in PairsOf(t);
      }
    }
    forall p | p in Star(x, t) ensures p !in PairsOf(t) {
      assert x in p;
    }
  }

  /** There are n(n-1)/2 two-element subsets of an n-element set. */
  lemma {:induction false} PairsOfCard(s: set<Id>)
    ensures 2 * |PairsOf(s)| == |s| * (|s| - 1)
    decreases s
  {
    if s == {} {
      assert PairsOf(s) == {};
    } else {
      var x :| x in s;
      var t := s - {x};
      PairsOfCard(t);
      StarCard(x, t);
      PairsSplit(s, x);
      assert |PairsOf(s)| == |PairsOf(t)| + |t|;
      assert |s| == |t| + 1;
      PairArithmetic(|t|);
    }
  }

  /** Under endpoint closure every joined pair is a pair of nodes. */
  lemma {:induction false} JoinedPairsAreNodePairs(g: Graph)
    requires Closed(g)
    ensures JoinedPairs(g) <= PairsOf(g.nodes.Keys)
  {
  }

  /** Under endpoint closure the graph is complete exactly when every two
      different nodes are joined by some couple. */
  lemma {:induction false} CompleteIffAllPairsJoined(g: Graph)
    requires Closed(g)
    ensures IsComplete(g) <==>
      forall a, b | a in g.nodes && b in g.nodes && a != b :: Joined(g, a, b)
  {
    var n := |g.nodes|;
    var all := PairsOf(g.nodes.Keys);
    PairsOfCard(g.nodes.Keys);
    assert |g.nodes.Keys| == n;
    assert |all| == n * (n - 1) / 2;
    JoinedPairsAreNodePairs(g);
    SubsetCard(JoinedPairs(g), all);
    if IsComplete(g) {
      forall a, b | a in g.nodes && b in g.nodes && a != b ensures Joined(g, a, b) {
        assert {a, b} in all;
        var c :| c in g.edges && c.0 != c.1 && {c.0, c.1} == {a, b};
        assert c.0 in {a, b} && c.1 in {a, b};
      }
    }
    if forall a, b | a in g.nodes && b in g.nodes && a != b :: Joined(g, a, b) {
      forall p | p in all ensures p in JoinedPairs(g) {
        var a, b :| a in g.nodes && b in g.nodes && a != b && p == {a, b};
        if (a, b) in g.edges {
          assert {(a, b).0, (a, b).1} == p;
        } else {
          assert {(b, a).0, (b, a).1} == p;
        }
      }
      assert JoinedPairs(g) == all;
    }
  }

  /** The empty graph and every closed single-node graph are complete. */
  lemma {:induction false} SmallGraphsComplete(g: Graph)
    requires Closed(g)
    requires |g.nodes| <= 1
    ensures IsComplete(g)
  {
    CompleteIffAllPairsJoined(g);
    forall a, b | a in g.nodes && b in g.nodes && a != b ensures false {
      assert {a, b} <= g.nodes.Keys;
      assert |{a, b}| == 2;
      SubsetCard({a, b}, g.nodes.Keys);
    }
  }
}
