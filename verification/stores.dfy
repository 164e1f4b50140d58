/** The two stores a graph owns: nodes keyed by identifier, and edges keyed
    by a couple of endpoint identifiers, then by edge identifier. */
module Stores {
  import opened Wrappers

  /** An opaque node or edge identifier. */
  type Id = string

  /** A value as the graph sees it: an attribute value, or a piece of bulk
      input before validation. `Dict` keeps its entries in insertion order;
      only a `Dict` whose keys are pairwise different stands for a Python
      dictionary, and results that need it require `DistinctKeys`;
      `List` stands for a list, or any other iterable that is not a dict, a
      tuple or a string and can be iterated more than once; `Ident` is an
      instance of the identifier type, a string, which the setters iterate
      character by character; `Other` is anything not iterable, numbers
      included. */
  datatype Value =
    | Dict(entries: seq<(Value, Value)>)
    | List(items: seq<Value>)
    | Tuple(items: seq<Value>)
    | Ident(id: Id)
    | Flag(b: bool)
    | Null
    | Other(tag: nat)

  /** Keyword attributes of a node or an edge. */
  type Attrs = map<string, Value>

  /** A node record: the caller's attributes plus the two calculated fields,
      which stay absent until the first recomputation pass. */
  datatype NodeRec = NodeRec(attrs: Attrs, degree: Option<nat>, neighbors: Option<set<Id>>)

  /** A (left, right) pair of endpoints, as canonicalised by the variant. */
  type Couple = (Id, Id)

  type Nodes = map<Id, NodeRec>

  /** Parallel edges of one couple, by edge identifier. */
  type Multiples = map<Id, Attrs>

  type Edges = map<Couple, Multiples>

  datatype Graph = Graph(nodes: Nodes, edges: Edges)

  const EmptyGraph := Graph(map[], map[])

  /** A fresh node record as `add_node` stores it when it is given no attributes. */
  const BareNode := NodeRec(map[], None, None)

  predicate Touches(c: Couple, n: Id) {
    c.0 == n || c.1 == n
  }

  /** Endpoint closure: every endpoint of every couple has a node record. */
  predicate Closed(g: Graph) {
    forall c | c in g.edges :: c.0 in g.nodes && c.1 in g.nodes
  }

  /** Number of nodes, as `len(graph)` reports it. */
  function Size(g: Graph): nat {
    |g.nodes|
  }
}
