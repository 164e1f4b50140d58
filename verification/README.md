# ConnectionS graph core in Dafny

This project models the in-memory multigraph engine of ConnectionS:

- the abstract `Graph` class of `connections/core/graph.py`;
- its directed instance `DirectedGraph` of `connections/core/directed_graph.py`;
- the validation error taxonomy of `connections/exceptions/validation.py`.

A graph holds two stores:

- the **node store** maps a node identifier to its record;
- the **edge store** maps a *couple* `(node_l, node_r)` to its *multiples*, which map edge identifiers to edge attributes.

A node record carries the caller's attributes and two *calculated fields*, `degree` and `neighbors`. Both are `Option`s because a freshly added node has neither until the next recomputation.

Every operation is a pure function from a graph to a new graph or an error. The engine is generic in a `Variant`:

- the couple canonicalisation, which is `_couple_representation` in the source;
- the neighbour rule, which is `calc_neighbors`.

The directed graph instantiates it with the identity and with successor sets.

Modules:

| module | file | contents |
|---|---|---|
| `Wrappers` | wrappers.dfy | `Option`, `Result` |
| `Stores` | stores.dfy | identifiers, tagged `Value`s, node records, the two stores, endpoint closure |
| `Validation` | validation.dfy | the twelve validation error kinds, their two families, the rendered text |
| `Degrees` | degrees.dfy | the degree formula, `clear_degree` and the `calc_degree` loop |
| `Engine` | engine.dfy | recomputation, `add_node`, `del_node`, `clear_nodes`, `add_edge`, `del_edge`, `clear_edges` |
| `Structure` | structure.dfy | `find_loops`, `_is_pseudo`, `_is_multi`, `_is_complete` |
| `Subgraph` | subgraph.dfy | `get_subgraph`, corrected and as written |
| `Bulk` | bulk.dfy | the fail-fast checks of the `nodes` and `edges` setters, the `add_node`/`add_edge` calls they replay, the constructor |
| `BulkProperties` | bulk_properties.dfy | what replaying an edge dictionary stores |
| `Setters` | setters.dfy | what the two setters store, for dictionary, list and string input |
| `Aborted` | aborted.dfy | what the two setters leave behind when they raise |
| `Directed` | directed.dfy | `_couple_representation`, the `calc_neighbors` loop, `describe` |
| `DirectedExamples` | directed_examples.dfy | the class documentation's example, and a three-node chain |

Endpoint closure is the predicate `Closed`: every endpoint of every couple is a node. Operations that recompute need it, because `calc_degree` indexes the node store by couple endpoints. `clear_nodes` breaks it, as the source does.

## Model

| member | source | states |
|---|---|---|
| Validation.Render | connections/exceptions/validation.py:22-29 | The text of every validation error is its family prefix, one space, then its message. |
| Validation.Message | connections/exceptions/validation.py:39-140 | The fixed message of each exception class. The node identifier and in-couple identifier kinds share one text, and the duplication message interpolates the couple. It has no contract of its own; its properties are stated by `Validation.InCoupleDiffersOnlyInPrefix`, `Validation.DuplicationNamesLeftThenRight` and `Validation.DuplicationTextIsAmbiguous`. |
| Validation.NodeFamilyKinds | connections/exceptions/validation.py:32-60 | An error belongs to the nodes family exactly when it is one of the three node kinds. |
| Validation.EdgeFamilyKinds | connections/exceptions/validation.py:63-140 | An error belongs to the edges family exactly when it is one of the nine edge kinds. |
| Validation.RenderSeparatesFamilies | connections/exceptions/validation.py:32-67 | Two errors of different families never render to the same text. |
| Validation.InCoupleDiffersOnlyInPrefix | connections/exceptions/validation.py:91-97 | The in-couple identifier error has the same message as the node identifier error. The two rendered texts still differ, and they agree after the prefix. |
| Validation.DuplicationNamesLeftThenRight | connections/exceptions/validation.py:134-140 | The duplication message names `node_l`, then " and ", then `node_r`. |
| Validation.DuplicationTextIsAmbiguous | connections/exceptions/validation.py:134-140 | Two different duplication errors can render to the same text when an identifier contains " and ". |
| Degrees.Incidence | connections/core/graph.py:488-490 | A couple touches a node in 0, 1 or 2 positions. It is positive iff the node is an endpoint, and 2 iff the couple is a loop on that node. |
| Degrees.IsolatedDegreeZero | connections/core/graph.py:479-490 | A node that no couple touches has degree 0. |
| Degrees.SetCoupleDegree | connections/core/graph.py:488-490 | Replacing the multiples of one couple changes a node's degree by the new count times its incidence, minus the old share. |
| Degrees.RemoveCoupleDegree | connections/core/graph.py:488-490 | Removing a couple lowers a node's degree by exactly that couple's share. |
| Degrees.ClearDegree | connections/core/graph.py:479-482 | Every node's degree becomes 0. Nothing else in any record changes. |
| Degrees.CalcDegreeStep | connections/core/graph.py:488-490 | Adding one couple's multiplicity to both endpoints extends the partial degree sums by that couple. |
| Degrees.CalcDegree | connections/core/graph.py:484-490 | Every node's degree becomes the sum over couples of the number of parallel edges times its incidence. A loop counts twice. Edges, node keys, attributes and neighbours are unchanged. |
| Engine.Recompute | connections/core/graph.py:484-499 | Recomputation keeps edges, node keys and attributes. Afterwards both calculated fields agree with the edge store. |
| Engine.Settle | connections/core/graph.py:369-372 | With the recalculate flag the result is recomputed; without it the graph is returned unchanged. |
| Engine.RecomputeForgetsCalculatedFields | connections/core/graph.py:479-495 | Two graphs that differ only in their calculated fields recompute to the same graph. |
| Engine.RecomputeIdempotent | connections/core/graph.py:479-495 | Recomputing twice gives the same graph as recomputing once. |
| Engine.RecomputedIsFixedPoint | connections/core/graph.py:479-495 | A graph is unchanged by recomputation iff its calculated fields already agree with its edges. |
| Engine.AddNode | connections/core/graph.py:219-259 | Fails with NodeAlreadyExists iff the identifier is taken and replace is off. Otherwise it returns the identifier and stores exactly the given attributes under it. On replace, the old degree and neighbours carry over; a new node has neither. Edges and every other node are unchanged. |
| Engine.AddNodeGeneratedSucceeds | connections/core/graph.py:243-245 | Without an identifier, a fresh generated one is used, returned, and grows the graph by one node. |
| Engine.EnsureNode | connections/core/graph.py:358-367 | Adding a missing endpoint creates a bare record and leaves existing records untouched. |
| Engine.Isolate | connections/core/graph.py:279-286 | Removes the node and every couple touching it, in either position. Every other couple keeps its multiples. |
| Engine.DelNode | connections/core/graph.py:261-291 | The node and all couples touching it are gone. Other couples and other nodes' attributes are unchanged. Without recalculation the other records are untouched; with it they are recomputed. |
| Engine.DelNodeKeepsClosed | connections/core/graph.py:279-286 | Deleting a node keeps endpoint closure. |
| Engine.AddNodeThenDelNode | connections/core/graph.py:219-291 | Adding an unused node and deleting it without recalculation restores the original graph. |
| Engine.ClearNodes | connections/core/graph.py:293-295 | The node store becomes empty and the edge store is untouched. |
| Engine.ClearNodesBreaksClosure | connections/core/graph.py:293-295 | With any edge present, clearing the nodes leaves dangling endpoints. |
| Engine.Put | connections/core/graph.py:355-356 | The couple exists afterwards and the identifier holds exactly the given attributes. Every other identifier of the couple and every other couple is unchanged. |
| Engine.Insert | connections/core/graph.py:355-367 | The couple gains the key, and the edge identifier gets exactly the given attributes. Other identifiers and other couples are unchanged. Missing endpoints become bare nodes when asked; existing records are untouched. |
| Engine.AddEdge | connections/core/graph.py:303-374 | Fails with EdgeAlreadyExists, before any change, iff the canonical couple already holds the identifier and replace is off. Otherwise it returns the identifier and stores the attributes under it. Every other edge and couple is unchanged, and node attributes are kept. The optional endpoint insertion and recomputation follow their flags. |
| Engine.InsertKeepsClosed | connections/core/graph.py:355-367 | Inserting with endpoint insertion keeps endpoint closure. |
| Engine.InsertKeepsCanonical | connections/core/graph.py:342-356 | Every stored couple stays in canonical form. |
| Engine.InsertDegree | connections/core/graph.py:349-356 | Inserting a new edge raises each node's degree by its incidence on the couple. |
| Engine.AddEdgeRaisesDegree | connections/core/graph.py:303-374 | After adding a new edge with recalculation, a node's degree is its old degree plus its incidence on the couple. |
| Engine.AddEdgeRecomputesInsert | connections/core/graph.py:369-372 | Adding an edge with recalculation is the plain insertion followed by recomputation. |
| Engine.Detach | connections/core/graph.py:401-408 | Without an identifier the couple key disappears. With one, only that identifier goes and the couple key stays, even when its multiples become empty. Nodes and other couples are unchanged. |
| Engine.DelEdge | connections/core/graph.py:376-413 | As Detach, with the node records either unchanged or recomputed according to the flag. |
| Engine.DetachKeepsClosed | connections/core/graph.py:404-408 | Deleting edges keeps endpoint closure. |
| Engine.AddThenDelEdgeRestores | connections/core/graph.py:303-413 | Adding a new edge to an existing couple, then deleting it by identifier, restores the graph. |
| Engine.AddThenDelEdgeLeavesEmptyCouple | connections/core/graph.py:404-408 | Adding the first edge of a couple, then deleting it by identifier, leaves the couple with empty multiples. The result differs from the original. |
| Engine.AddThenDelCoupleRestores | connections/core/graph.py:404-406 | Adding the first edge of a couple, then deleting the whole couple, restores the graph. |
| Engine.ClearEdges | connections/core/graph.py:415-421 | The edge store becomes empty. Every node keeps its attributes, with degree 0 and no neighbours. |
| Engine.ClearEdgesIsRecompute | connections/core/graph.py:415-421 | Clearing the edges equals emptying the edge store and then recomputing. |
| Structure.FindLoops | connections/core/graph.py:501-505 | Yields only stored couples whose two endpoints coincide, as a set (the yield order is under Left out). |
| Structure.IsPseudo | connections/core/graph.py:526-528 | `_is_pseudo`: `find_loops` yields something. It has no contract of its own; `Structure.PseudoIffLoop` proves it holds iff some couple is a loop. |
| Structure.PseudoIffLoop | connections/core/graph.py:501-528 | A graph is a pseudograph iff some couple is a loop, and `find_loops` yields exactly the loop couples. |
| Structure.TwoParallelEdgesMakeMulti | connections/core/graph.py:530-532 | A couple with two different edge identifiers makes the graph a multigraph. |
| Structure.IsMulti | connections/core/graph.py:530-532 | `_is_multi`: some couple holds more than one edge. It has no contract of its own; `Structure.MultiIffParallelEdges` proves it holds iff some couple holds two different edge identifiers. |
| Structure.MultiIffParallelEdges | connections/core/graph.py:530-532 | A graph is a multigraph iff some couple holds two different edge identifiers. |
| Structure.PairsOfCard | connections/core/graph.py:507-520 | A set of n nodes has n(n-1)/2 unordered pairs. |
| Structure.JoinedPairsAreNodePairs | connections/core/graph.py:515-518 | In a closed graph, the unordered pairs joined by non-loop couples are pairs of nodes. |
| Structure.CompleteIffAllPairsJoined | connections/core/graph.py:507-520 | A closed graph is complete iff every two different nodes are joined by a couple in some direction. |
| Structure.IsComplete | connections/core/graph.py:507-520 | `_is_complete`: the number of distinct unordered pairs joined by non-loop couples equals n(n-1)/2 for n nodes. It has no contract of its own; `Structure.CompleteIffAllPairsJoined` proves that on a closed graph it holds iff every two different nodes are joined. |
| Structure.SmallGraphsComplete | connections/core/graph.py:507-520 | A closed graph with at most one node is complete. |
| Subgraph.KeptEdges | connections/core/graph.py:442-459 | A couple is copied, with all its multiples, iff it passes `_condition` on the selection cut down to existing nodes and it has at least one edge. |
| Subgraph.EndsMember | connections/core/graph.py:453-471 | A node is an endpoint of the copied couples iff some copied couple touches it. |
| Subgraph.CopyKept | connections/core/graph.py:453-471 | The copy holds the kept couples. Its nodes are exactly their endpoints, with records copied unchanged, so it is closed. |
| Subgraph.Subgraph | connections/core/graph.py:423-477 | The subgraph holds the kept couples. Its nodes are exactly their endpoints, with their original attributes. It is closed and recomputed. |
| Subgraph.SubgraphAsWritten | connections/core/graph.py:460-471 | The source's version raises iff a copied node already carries the stray attribute. Otherwise every copied node gains `recalculate_calculated_attributes = False` on top of its attributes. |
| Subgraph.Mark | connections/core/graph.py:461-469 | Every node gains the stray attribute. Edges and node keys are unchanged and closure is kept. |
| Subgraph.FullmatchKeepsLess | connections/core/graph.py:447-450 | With fullmatch, the kept couples are a subset of those kept without it. |
| Subgraph.NoInnerEdgesGivesEmpty | connections/core/graph.py:453-459 | If no selected pair is joined by an edge, the fullmatch subgraph is the empty graph. |
| Subgraph.SelectedIsolatedNodeDropped | connections/core/graph.py:442-471 | A selected node with no incident edge is not in the subgraph. |
| Subgraph.FullSubgraphKeepsItself | connections/core/graph.py:442-459 | Taking the same fullmatch selection from a subgraph keeps all of its couples. |
| Subgraph.SubgraphIdempotent | connections/core/graph.py:423-477 | The corrected subgraph of a fullmatch subgraph, on the same selection, is that subgraph. |
| Subgraph.AsWrittenAddsStrayAttribute | connections/core/graph.py:460-469 | On a graph without the stray attribute, the source's version succeeds and every node of its result carries the attribute. |
| Subgraph.SubgraphOfSubgraphRaises | connections/core/graph.py:460-471 | On a two-node, one-edge graph, the source's version succeeds once but fails on its own result. The corrected version returns the same subgraph. |
| Bulk.EdgeDictReportsLowestCheck | connections/core/graph.py:174-181 | Edge dictionary checks pass iff every entry is admissible. Otherwise the error reported is the lowest-ranked check any entry fails, in the source's check order. |
| Bulk.CheckCouples | connections/core/graph.py:128-143 | The three couple passes accept exactly the inputs whose every item is a 2-tuple of identifiers, and otherwise raise one of the three couple errors. |
| Bulk.CheckMultiples | connections/core/graph.py:145-169 | The four passes over the values accept exactly the inputs where every value is a non-empty dictionary of identifier keys and dictionary values, and otherwise raise one of the four multiples errors. |
| Bulk.CheckEdgeDict | connections/core/graph.py:174-181 | The seven passes in source order: couple passes first, then the passes over the values. It has no contract of its own; `Bulk.EdgeDictReportsLowestCheck` proves it accepts iff every entry is admissible and otherwise reports the lowest-ranked failing check. |
| Bulk.MultiplesReportLowestCheck | connections/core/graph.py:145-169 | Once all couples are well formed, the checks on the multiples report the lowest-ranked failure over all entries. |
| Bulk.InnerCalls | connections/core/graph.py:189-194 | One `add_edge` call per parallel edge, in order, carrying the couple, the identifier and the attribute entries. |
| Bulk.ListCalls | connections/core/graph.py:202-206 | One `add_edge` call per listed couple, in order, with no identifier and no attributes. |
| Bulk.ValidateEdges | connections/core/graph.py:125-208 | None gives no calls. Anything that is not a dict, list, tuple or string fails with WrongTypeOfEdges. A dict passes iff admissible, and then gives one wrapped call per parallel edge, in order. A list, tuple or string passes iff every item it yields is a couple, and then gives one call per couple. A string yields its characters, so a non-empty one fails with WrongTypeOfCouple and an empty one passes. On failure the error is that of the lowest-ranked check any item fails. It is always of the edge family and never the duplication error. |
| Bulk.ValidateCoupleList | connections/core/graph.py:198-206 | An edge list passes iff every item is a 2-tuple of identifiers, and then gives one call per couple. Otherwise the error is the lowest-ranked of the three couple checks that any item fails. |
| Bulk.CoupleListReportsLowestCheck | connections/core/graph.py:199-201 | The three couple passes accept a list iff every item is a couple. Otherwise they report the lowest-ranked check any item fails, wherever that item stands. |
| Bulk.DictCallsCarryIdentifiers | connections/core/graph.py:182-194 | After the checks, every call from a dictionary carries an edge identifier, so the empty-multiples branch is never reached. |
| Bulk.ValidateNodes | connections/core/graph.py:81-107 | None gives no calls, and anything that is not a dict, list, tuple or string fails with WrongTypeOfNodes. A dict passes iff all keys are identifiers and all values are dicts. A dict with any non-identifier key fails with WrongTypeOfNodeIdentifier; a dict with identifier keys fails only with WrongTypeOfNodeAttributes. A list, tuple or string passes iff every item it yields is an identifier, fails otherwise with WrongTypeOfNodeIdentifier, and a string yields its characters. The calls follow input order, and every error is of the nodes family. |
| Bulk.ValidateIdentifierList | connections/core/graph.py:102-105 | A node list passes iff every item is an identifier. Otherwise it fails with WrongTypeOfNodeIdentifier. |
| Bulk.Keywords | connections/core/graph.py:100-101 | Expanding an attribute dictionary into keyword arguments fails iff a key is not a string or names an argument already bound. Those are `self` and the arguments the loader passes by name. Without a `replace` key, replace stays off. |
| Bulk.KeywordsAttrKeys | connections/core/graph.py:100-101 | The stored attributes are exactly the keys of the dictionary other than `replace`. |
| Bulk.KeywordsLastValueWins | connections/core/graph.py:100-101 | Each stored attribute holds the value of the key's last occurrence. |
| Bulk.PlaceNode | connections/core/graph.py:249-259 | The `add_node` step of the loaders fails iff the node exists and replace is literally False. With replace literally True the calculated fields carry over; otherwise they are absent. |
| Bulk.ApplyNodeCalls | connections/core/graph.py:97-105 | Replaying node calls keeps the edge store. It adds exactly the named nodes and leaves the others untouched. Only NodeAlreadyExists or a keyword clash can stop it. |
| Bulk.NodeStep | connections/core/graph.py:101-105 | One loader `add_node` call: a listed call always succeeds, and a failure is NodeAlreadyExists or a keyword clash. On success the edges are unchanged and exactly the call's node is added to the keys. |
| Bulk.LoadEdge | connections/core/graph.py:189-197 | One loader `add_edge` call adds both endpoints as bare nodes if missing, and adds the canonical couple. A duplicate identifier under a dictionary is reported as the duplication error for that couple. |
| Bulk.ApplyEdgeCalls | connections/core/graph.py:182-206 | Replaying edge calls adds exactly the endpoints as bare nodes and exactly the canonical couples. |
| Bulk.ApplyEdgeCallsKeepsClosed | connections/core/graph.py:182-206 | If replaying edge calls on a closed graph succeeds, the result is closed: every couple written has both endpoints among the nodes. |
| Bulk.ApplyEdgeCallsErrors | connections/core/graph.py:189-206 | A failed replay reports a keyword clash, EdgeAlreadyExists from a list call, or the duplication error naming one dictionary call's couple. |
| Bulk.SetNodes | connections/core/graph.py:70-74 | A failed check is raised as `Invalid` of exactly that check's error, and an `Invalid` error comes only from a failed check. On success the node store holds exactly the named nodes, and the edge store is untouched. What it leaves after raising is stated by `Aborted.SetNodesLeaves`. |
| Bulk.SetEdges | connections/core/graph.py:114-118 | A failed check is raised as `Invalid` of exactly that check's error, and an `Invalid` error other than the wrapped duplication comes only from a failed check. On success the edge store holds exactly the canonical couples of the calls, and existing node records are unchanged. What it leaves after raising is stated by `Aborted.SetEdgesLeaves`. |
| Bulk.Construct | connections/core/graph.py:31-36 | A constructed graph is closed, recomputed and canonical. |
| Aborted.NodesReached | connections/core/graph.py:100-105 | A node load stops at the first call that raises. The leading calls before it succeed and give the returned graph, and the load reports that call's error. Every call succeeding means the whole load succeeds. |
| Aborted.SetNodesLeaves | connections/core/graph.py:70-74 | After the nodes setter, raised or not, the edge store is unchanged. A failed check leaves an empty node store. A failed call leaves exactly the nodes of the calls before it. Success leaves the setter's result. |
| Aborted.NodeLoadStopsHalfway | connections/core/graph.py:100-101 | A node dict whose second attribute dict has the key `identifier` raises a keyword clash and leaves only the first node. |
| Aborted.Reached | connections/core/graph.py:182-206 | An edge replay stops at the first call that raises. The leading calls before it succeed and give the returned graph, and the replay reports that call's error. Every call succeeding means the whole replay succeeds. |
| Aborted.SetEdgesLeaves | connections/core/graph.py:114-118 | After the edges setter, raised or not, existing node records are kept. A failed check leaves an empty edge store and the nodes as they were. A failed call leaves exactly the endpoints and couples of the calls before it. Success leaves the setter's result. |
| Aborted.ClashingEdgesPassChecks | connections/core/graph.py:174-194 | An edge dict with couples (a, b) and (b, c), one edge each, passes every check and gives two wrapped calls. |
| Aborted.ClashingCallsStop | connections/core/graph.py:189-194 | Replaying those calls on an empty edge store stores the first edge and its endpoints, then stops with a keyword clash at the second. |
| Aborted.EdgeLoadStopsHalfway | connections/core/graph.py:114-118 | Setting the edges to that dict raises a keyword clash. The store is left holding the couple (a, b) and the nodes a and b. |
| BulkProperties.MultiplesOfKeys | connections/core/graph.py:189-194 | The multiples read from an inner dictionary hold exactly its identifier keys. |
| BulkProperties.EdgesOfKeys | connections/core/graph.py:182-194 | The edge store read from an edge dictionary holds exactly its couples. |
| BulkProperties.LoadEdgeIsAddEdge | connections/core/graph.py:189-197 | A loader call is `add_edge` with endpoint insertion and no recalculation. Its EdgeAlreadyExists becomes the duplication error under a dictionary. |
| BulkProperties.LoadEdgeStores | connections/core/graph.py:189-194 | A successful loader call is the plain insertion with the expanded attributes. |
| BulkProperties.ReplayAppendFails | connections/core/graph.py:182-197 | Once a call fails, the calls after it are not run and the error is kept. |
| BulkProperties.InnerLoadStores | connections/core/graph.py:189-194 | Replaying fresh parallel edges merges exactly their multiples into the couple. |
| BulkProperties.DictLoadStores | connections/core/graph.py:182-194 | Replaying a dictionary of fresh, distinct entries succeeds. The edge store gains exactly the dictionary's couples and multiples. |
| Setters.SetEdgesStoresDict | connections/core/graph.py:174-197 | Setting a valid edge dictionary stores it exactly, couple to identifier to attributes, and keeps existing node records. |
| Setters.ListLoadStores | connections/core/graph.py:202-206 | With fresh generated identifiers, replaying an edge list succeeds. It stores one attribute-less edge per item under its canonical couple. |
| Setters.SetEdgesStoresList | connections/core/graph.py:198-206 | Setting an edge list with injective identifier generation stores one new edge per listed couple. |
| Setters.ListedLoad | connections/core/graph.py:104-105 | Listed node calls never fail. Starting from bare records, every record stays bare: no attributes and no calculated fields. |
| Setters.SetNodesStoresList | connections/core/graph.py:102-105 | Setting a list, tuple or string of identifiers stores exactly the identifiers it yields, as bare records, and keeps the edges. |
| Setters.StringNodes | connections/core/graph.py:102-105 | Setting the nodes to the string "ab" stores the nodes "a" and "b". |
| Setters.StringEdges | connections/core/graph.py:198-206 | Setting the edges to "ab" fails with WrongTypeOfCouple, and setting them to the empty string loads an empty edge store. |
| Setters.KeyedLoad | connections/core/graph.py:100-101 | Keyed node calls on new distinct nodes succeed iff every attribute dictionary expands. Otherwise they fail with a keyword clash. |
| Setters.KeyedLoadStores | connections/core/graph.py:100-101 | Each keyed node then holds exactly its expanded attributes and no calculated fields. |
| Setters.KeyedHeadFails | connections/core/graph.py:100-101 | A first keyed call that cannot expand its attributes stops the load with a keyword clash. |
| Setters.SelfAttributeClashes | connections/core/graph.py:101-194 | An attribute named `self` raises a keyword clash in the nodes setter and in a loader `add_edge` call, since the bound method already fills `self`. |
| Setters.SetNodesStoresDict | connections/core/graph.py:97-101 | Setting a node dictionary succeeds iff every attribute dictionary expands. Then each node holds exactly its attributes; otherwise it fails with a keyword clash. |
| Directed.OrientKeepsDirection | connections/core/directed_graph.py:53-57 | The identity is a valid canonicalisation and every store is canonical for it. (a, b) and (b, a) stay different couples when a ≠ b. |
| Directed.Orient | connections/core/directed_graph.py:53-57 | `_couple_representation` of the directed graph: the couple as given. It has no contract of its own; `Directed.OrientKeepsDirection` proves it is a valid canonicalisation that keeps (a, b) and (b, a) apart. |
| Directed.OppositeEdgesStaySeparate | connections/core/directed_graph.py:53-57 | Edges added in opposite directions land under two separate couples, each with its own identifier and attributes. |
| Directed.SuccessorsMember | connections/core/directed_graph.py:59-64 | x is a successor of n iff (n, x) is a couple key. |
| Directed.Successors | connections/core/directed_graph.py:59-64 | The right ends of the couples that start at a node. It has no contract of its own; `Directed.SuccessorsMember` proves x is in it iff (n, x) is a couple key. |
| Directed.ClearNeighbors | connections/core/graph.py:492-495 | Every node's neighbour set becomes empty. Nothing else in any record changes. |
| Directed.CalcNeighborsStep | connections/core/directed_graph.py:63-64 | Adding one couple's right node to its left node's set extends the partial successor sets by that couple. Only left ends need to be nodes. |
| Directed.CalcNeighbors | connections/core/directed_graph.py:59-64 | Needs only every left end to be a node, as the loop indexes the store by the left end. Every node's neighbours are then exactly the right ends of its outgoing couple keys, dangling right ends included. Edges, node keys, attributes and degrees are unchanged. |
| Directed.DanglingRightEndAccepted | connections/core/directed_graph.py:63-64 | A graph whose couple (a, b) has no node b is not closed, yet it meets the requirement of `calc_neighbors`. |
| Directed.Refresh | connections/core/directed_graph.py:68-69 | `calc_degree` then `calc_neighbors` gives the recomputed graph, which stays closed. |
| Directed.RecomputedNeighbours | connections/core/directed_graph.py:59-64 | After recomputation, x is a neighbour of n iff (n, x) is a couple key. A loop makes a node its own neighbour, and a node with no outgoing couple has none. |
| Directed.NeighboursNotSymmetric | connections/core/directed_graph.py:63-64 | With (a, b) stored but not (b, a), b is a neighbour of a and a is not a neighbour of b. |
| Directed.EmptiedCoupleKeepsNeighbour | connections/core/graph.py:404-413 | Deleting the last edge of a couple by identifier keeps the couple key with empty multiples, so the right node stays a neighbour after recomputation. |
| Directed.Summary | connections/core/directed_graph.py:70-78 | `describe` reports the directed type and the node count. The edge count is the number of couple keys. Multi is true iff some couple has two edges and pseudo iff a loop exists. On a closed graph, complete is true iff every two nodes are joined. |
| Directed.Describe | connections/core/directed_graph.py:66-78 | `describe` recomputes the graph and reports the summary of the stores. |
| Directed.RecomputeKeepsSummary | connections/core/directed_graph.py:66-78 | Recomputation does not change anything `describe` reports. |
| Directed.EdgeCountIgnoresParallelEdges | connections/core/directed_graph.py:73 | Deleting one parallel edge by identifier keeps the reported edge count. Deleting the whole couple lowers it by one. |
| DirectedExamples.TwoWayFacts | connections/core/directed_graph.py:38-47 | Two nodes joined by two edges one way and one edge back both get degree 3, and each is the other's only neighbour. |
| DirectedExamples.TwoWaySummary | connections/core/directed_graph.py:70-78 | Such a graph is described as 2 nodes and 2 edges, multi, not pseudo, and complete. |
| DirectedExamples.PairExample | connections/core/directed_graph.py:19-47 | The documented Sebastian/Elizabeth stores, attributes included, give degree 3 to both nodes, neighbours {Elizabeth} and {Sebastian}, and the summary above. Recomputation keeps the edges and the node attributes. |
| DirectedExamples.ChainFacts | connections/core/directed_graph.py:59-64 | Take a chain x→y with two edges and y→z with one. The degrees are 2, 3 and 1, and the neighbours are {y}, {z} and {}. |
| DirectedExamples.ChainSummary | connections/core/directed_graph.py:70-78 | Such a chain is described as 3 nodes and 2 edges, multi, not pseudo, and not complete. |
| DirectedExamples.XYZExample | connections/core/directed_graph.py:59-64 | The concrete chain X, Y, Z with edges e1, e2 and e3 has the degrees, neighbours and summary above. |

## Left out

- Identifier generation (UUIDs in `connections/core/identifier.py`) is not part of this model. The generated identifier is a parameter: `generated` for single calls and `gen: nat -> Id` for the loaders. Results that need freshness require it of that parameter.
- The `isinstance(identifier, Identifier)` check of `add_node` is not modelled, because identifiers are strings by type. Only the bulk input datatype `Value` can hold a non-identifier.
- UndirectedGraph is not part of this model. The engine keeps canonicalisation and the neighbour rule as parameters.
- JSON import/export, the `algorithms` package and the package `__init__` files are not modelled. They are I/O, code outside the core, or re-exports.
- `_is_connected` is not modelled because it returns NotImplemented. `describe` has no connectivity entry, because the source has that line commented out. Descriptions that list connectivity disagree with the code, and the model follows the code.
- `__repr__` is not modelled; it is text formatting of `describe`.
- `__eq__` is Dafny's structural equality on `Graph`. Only one graph class is modelled, so the type comparison has no counterpart.
- `__len__` is `Stores.Size`, the number of nodes, and is used by `Directed.Summary`.
- The deleters of `nodes` and `edges`, which raise, are not modelled: the model offers no operation that deletes a store.
- `_is_complete` divides with floats. n(n-1) is always even, so the model compares the number of joined pairs with n(n-1)/2 in integer division, which is exact. Unordered pairs are two-element sets, so identifiers need no order.
- Attribute values are opaque `Value`s, and Python object identity and aliasing are not modelled. A caller attribute named `degree` or `neighbors` occupies the calculated field's slot in the source. The model keeps calculated fields apart from attributes, so such an attribute stays an ordinary attribute.
- Absent keys are preconditions, not modelled `KeyError`s. This covers deleting an absent node, couple or edge identifier, and recomputing with dangling endpoints (`Closed`). It also covers `get_subgraph` without fullmatch copying an endpoint that is not a node (`EndsKnown`).
- A bulk dictionary whose attribute keys clash with `self` or with the arguments the loader passes is modelled as the single error `KeywordClash`. Python's `TypeError` messages are not modelled.
- Degree is a sum over the set of couples. Recomputation and the operations that may recompute are therefore ghost functions; `Degrees.CalcDegree`, `Directed.CalcNeighbors` and `Directed.Refresh` are the executable loops.
- Engine.AddEdge: the result's node records are stated through their keys and attributes, and the exact records come from `Engine.Insert` and `Engine.AddEdgeRecomputesInsert`.
- Bulk.SetNodes: the contract states the node keys. The records themselves are stated per input shape by `Setters.SetNodesStoresList` and `Setters.SetNodesStoresDict`. The partly filled store left by a raise is in `Aborted.SetNodesLeaves`, because the result type carries no graph on failure.
- Bulk.SetEdges: the contract states couple keys and node records. The stored multiples are stated by `Setters.SetEdgesStoresDict`, for dictionaries with distinct identifiers, and by `Setters.SetEdgesStoresList`. The partly filled store left by a raise is in `Aborted.SetEdgesLeaves`.
- One-shot iterables such as generators are not modelled. The setters iterate their input once per check pass and once more to load it, so a generator is used up by the checks and loads nothing. `List` stands only for iterables that can be iterated again.
- `find_loops` is a generator that yields loops in the edge store's insertion order. Structure.FindLoops returns them as a set, so the order is not modelled; only `_is_pseudo`, which ignores order, uses it.
- Setters.ListedLoad: a listed call on a node that is already stored and was never recomputed writes `degree` and `neighbors` keys holding None. An absent field and a None-valued field are one state (`None`) in the model, so such a record is `BareNode` here but compares unequal to a fresh record in the source.
- Setters.SetNodesStoresList: a repeated identifier in the list gives that node None-valued calculated fields in the source; the model states a bare record, for the reason on the line above.
- Engine.AddNode: with replace=True on a stored node that was never recomputed, the source writes None-valued `degree` and `neighbors` keys; the model carries over `None`, the same state as an absent field.
- Bulk.PlaceNode: with replace literally True on a stored node, the carried-over fields are `None` both when they were absent and when they held None, for the same reason.
- Bulk.Construct: states only the invariants of a constructed graph; the stores come from `Bulk.SetNodes` and `Bulk.SetEdges`.

## Findings

| source | as written | input that shows it | evidently intended | confidence | as-written member | corrected member |
|---|---|---|---|---|---|---|
| connections/core/graph.py:460-471 | `get_subgraph` passes `recalculate_calculated_attributes=False` to `add_node`, which has no such parameter. It is stored as a node attribute of every copied node, and copying such a node again passes the keyword twice. | Take nodes a and b with one edge e on (a, b), selection {a, b}, fullmatch. The first `get_subgraph` succeeds; calling it again on the result raises a duplicate keyword argument error. | Copy only the node's own attributes. The fullmatch subgraph of a subgraph on the same selection is then that subgraph. | not executed | Subgraph.SubgraphOfSubgraphRaises | Subgraph.SubgraphIdempotent |
