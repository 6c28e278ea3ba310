# m1graf2020 graph engine in Dafny

This project models the in-memory graph engine of the `m1graf2020` Java package. It covers four classes.

- **`Graf`** is a directed multigraph. It keeps two structures side by side:
  - a `TreeMap<Node, List<Node>>` of successor lists, walked in ascending id order;
  - an append-ordered `List<Edge>`.

  On top of these, `Graf` provides:
  - mutators: `addNode`, `addEdge`, `removeEdge`, `removeNode`;
  - linear-scan queries over the edge list;
  - a successor-array codec, an adjacency matrix and a DOT rendering;
  - two derived graphs: the reverse and a one-pass "transitive closure";
  - breadth-first and depth-first searches driven by a colour array.
- **`UndirectedGraf`** overrides some of these:
  - its successor-array constructor symmetrises the lists;
  - in- and out-edges collapse to incident edges, and the degrees collapse to list size;
  - `getReverse` is the identity;
  - the DOT rendering lists a neighbour only from its smaller endpoint.
- **`Node`** is an integer id with an optional label. Its `equals`, `hashCode` and `compareTo` look at the id only. A static "biggest id" watermark is kept by its constructors.
- **`Edge`** is an immutable (from, to, weight, label) record. Its `compareTo` is lexicographic on the endpoint ids, and it has no `equals` of its own.

How the files map to the Java code:

| File | Module | What it holds |
|---|---|---|
| `wrappers.dfy` | `Wrappers` | `Option`, standing for `null`. |
| `seqs.dfy` | `Seqs` | The `java.util` operations the code relies on: `List.indexOf`, `List.remove(Object)`, `removeIf`, `Collections.sort`, `TreeMap` key order and `firstKey`. |
| `text.dfy` | `Text` | `Integer.toString`/`parseInt`, joining with `", "` and cutting text at a character. |
| `node.dfy` | `Nodes` | `Node` as a datatype. The static watermark is the class `IdWatermark`. |
| `edge.dfy` | `Edges` | `Edge` as a class with constant fields, because the list operations compare edges by reference. Also the edge-list scans. |
| `adjacency.dfy` | `Adjacency` | The successor map (`map<int, seq<int>>`), the `addEdge` updates on it, reachability, and the ascending walk over keys. |
| `successor_array.dfy` | `SuccessorArray` | The successor-array decoder (`Graf(int...)` and its undirected second pass), the encoder `toSuccessorArray`, and their round trip. |
| `removal.dfy` | `Removal` | What `removeNode` does to both structures. |
| `derived.dfy` | `Derived` | `getReverse` and `getTransitiveClosure` as functions of the adjacency. |
| `dot.dfy` | `Dot` | Both DOT renderings, a reader that reads them back, and the `StringBuilder` loops. |
| `traversal.dfy` | `Traversal` | `getBFS` and `getDFS`/`dfs_visit` over a colour `array`. |
| `graf.dfy` | `Graphs` | The class `Graf`: fields `adj` and `edges`, updated in place by its methods. |

`Graphs.Graf` carries `kind: Kind` (`Directed` or `Undirected`) in place of the Java subclass. Each overridden method branches on it.

Node ids are unbounded integers. The 32-bit wrap-around of `++biggestId` is written out in `IdWatermark.NewNode`. Two other operations do arithmetic on ids, and neither can wrap:
- The decoder's `++from` (Graf.java:37, `d.from + 1` in `SuccessorArray.Step`) runs once per 0 read, so `from` never exceeds the array length plus one (`SuccessorArray.RunNodes`). An `int[]` is shorter than `Integer.MAX_VALUE`.
- `toAdjMatrix` indexes with `node_id - 1` and `n.getId() - 1` (Graf.java:513). The model requires every id it indexes with to lie in 1..n, so the subtraction stays in range. A wrapped index would fail the same bounds check in Java.

## Model

| member | source | states |
|---|---|---|
| Nodes.IntCompare | src/m1graf2020/Node.java:34 | Integer.compare: the result is -1, 0 or 1. It is negative exactly when a < b and zero exactly when a == b. |
| Nodes.Node.CompareTo | src/m1graf2020/Node.java:54-57 | compareTo is the sign of the id comparison. It is 0 exactly when `equals` holds. |
| Nodes.Node.ToString | src/m1graf2020/Node.java:59-62 | toString is "(", then an optional minus sign and digits, then ")". The text between the brackets parses back to the id. |
| Nodes.EqualsAgreesWithHashCode | src/m1graf2020/Node.java:25-40 | equals holds exactly when the hash codes (the ids) agree. It is symmetric, agrees with compareTo == 0, and ignores the label. |
| Nodes.CompareToIsTotalOrder | src/m1graf2020/Node.java:54-57 | compareTo is antisymmetric and transitive. |
| Nodes.IdWatermark.constructor | src/m1graf2020/Node.java:7 | The watermark starts at 0. |
| Nodes.IdWatermark.NewNode | src/m1graf2020/Node.java:9-11 | `new Node()` takes the old watermark plus one, wrapping from Integer.MAX_VALUE to MIN_VALUE. The watermark becomes that id. There is no label. |
| Nodes.IdWatermark.NodeWithId | src/m1graf2020/Node.java:13-16 | `new Node(id)` has that id. The watermark becomes max(watermark, id), so it never decreases. |
| Nodes.IdWatermark.NodeWithLabel | src/m1graf2020/Node.java:18-22 | As `new Node(id)`, and the label is kept. |
| Edges.Edge.constructor | src/m1graf2020/Edge.java:12-15 | The getters return the two nodes. The weight defaults to 0 and the label to null. |
| Edges.Edge.Weighted | src/m1graf2020/Edge.java:17-21 | The getters return the nodes and the weight. The label defaults to null. |
| Edges.Edge.Labelled | src/m1graf2020/Edge.java:23-27 | The getters return the nodes and the label. The weight defaults to 0. |
| Edges.Edge.Full | src/m1graf2020/Edge.java:29-34 | The getters return all four arguments. |
| Edges.Edge.CompareTo | src/m1graf2020/Edge.java:44-50 | The result is -1, 0 or 1. It is 0 exactly when both endpoint ids match. It is negative exactly when (from, to) is lexicographically smaller. |
| Edges.CompareToLexicographic | src/m1graf2020/Edge.java:44-50 | compareTo is antisymmetric in sign, transitive, and transitive on 0. |
| Edges.CompareToIgnoresPayload | src/m1graf2020/Edge.java:44-50 | Two distinct edges that differ only in weight or label compare as 0. |
| Edges.OutEdges | src/m1graf2020/Graf.java:345-353 | getOutEdges keeps exactly the listed edges leaving the id, in list order (a subsequence). |
| Edges.InEdges | src/m1graf2020/Graf.java:369-377 | getInEdges keeps exactly the listed edges entering the id, in list order. |
| Edges.IncidentEdges | src/m1graf2020/Graf.java:393-401 | getIncidentEdges keeps exactly the listed edges with the id at either end, in list order. |
| Edges.FirstEdge | src/m1graf2020/Graf.java:403-410 | getEdge is null exactly when no listed edge goes from u to v. Otherwise it is a listed edge u -> v with none before it. |
| Edges.FirstEdgeAt | src/m1graf2020/Graf.java:403-410 | The edge getEdge finds sits where the pair (u, v) first occurs in the edge list. |
| Edges.CountIn | src/m1graf2020/Graf.java:440-446 | The counting loop of inDegree gives the number of edges getInEdges returns. |
| Edges.FromIds | src/m1graf2020/Graf.java:547-550 | The predecessor list holds the source id of each edge, in order. |
| Seqs.RemoveFirst | src/m1graf2020/Graf.java:315 | List.remove(Object) takes exactly one copy of x out of the multiset. An absent x leaves the list unchanged. |
| Seqs.RemoveFirstAt | src/m1graf2020/Graf.java:315 | List.remove(Object) cuts out the first occurrence of x and keeps the rest in order. |
| Seqs.Filter | src/m1graf2020/Graf.java:316 | The elements kept are exactly those satisfying the predicate (removeIf with the negated predicate), in their original order. |
| Seqs.SortSpec | src/m1graf2020/Graf.java:491 | Collections.sort leaves the list ascending and a permutation of what it was. |
| Seqs.SortedSet | src/m1graf2020/Graf.java:490 | The TreeMap key walk is strictly ascending and holds exactly the keys. |
| Seqs.SortedSetFirst | src/m1graf2020/Graf.java:573 | The key walk starts at the least key and continues with the walk over the other keys. |
| Seqs.RemoveCopies | src/m1graf2020/Graf.java:164 | n calls of List.remove(x) take min(n, count) copies of x out and leave every other value's count unchanged. |
| Adjacency.WithNode | src/m1graf2020/Graf.java:269-270 | `if (getNode(id) == null) addNode(id)` adds the id with an empty list only when it is missing, and leaves every existing list alone. |
| Adjacency.AddArc | src/m1graf2020/Graf.java:268-273 | The directed addEdge makes both ends nodes and appends v to u's list, duplicates included. No other list changes. |
| Adjacency.AddLink | src/m1graf2020/UndirectedGraf.java:80-85 | The undirected addEdge makes both ends nodes and appends v to u's list only when it is absent. No other list changes. |
| Adjacency.EmptyLists | src/m1graf2020/Graf.java:525-527 | The nodes added by `addNode` have exactly the given ids and empty lists. |
| Adjacency.AddArcsConcat | src/m1graf2020/Graf.java:268-273 | Adding the arcs of `ps + qs` is adding those of `ps`, then those of `qs`. |
| Adjacency.AddArcsKeys | src/m1graf2020/Graf.java:269-270 | Repeated addEdge creates exactly the endpoints of its pairs. |
| Adjacency.AddArcsExtends | src/m1graf2020/Graf.java:272 | addEdge only appends: every old list is a prefix of its new one. |
| Adjacency.AddArcsSuccessors | src/m1graf2020/Graf.java:272 | After repeated addEdge, y follows x exactly when it did before or (x, y) was added. |
| Adjacency.EntriesSpec | src/m1graf2020/Graf.java:530-535 | The (node, successor) entries of the walk hold exactly the successors of the walked nodes. |
| Adjacency.ClosedSetHoldsReachable | src/m1graf2020/Graf.java:584-594 | A node set closed under successors holds everything reachable from its members. |
| Adjacency.VisitingStep | src/m1graf2020/Graf.java:573 | The entrySet walk takes the least key not yet visited next. |
| Adjacency.VisitingDone | src/m1graf2020/Graf.java:573 | A finished entrySet walk visited the keys in ascending order. |
| SuccessorArray.Start | src/m1graf2020/Graf.java:28-29 | The decoder starts at node 1, which exists. |
| SuccessorArray.Step | src/m1graf2020/Graf.java:32-38 | One value keeps the current node a node. |
| SuccessorArray.RunSnoc | src/m1graf2020/Graf.java:30-39 | Reading one more value is one more step of the loop. |
| SuccessorArray.RunNodes | src/m1graf2020/Graf.java:30-39 | After reading s, the nodes are exactly 1..k+1, where k is the number of zeros read. Successor values never create nodes. |
| SuccessorArray.RunLists | src/m1graf2020/Graf.java:34 | The decoded lists hold no 0 and no duplicate. v is in j's list exactly when (j, v) is on the edge list. |
| SuccessorArray.RunPairs | src/m1graf2020/Graf.java:35 | One edge is listed per nonzero value read, duplicates kept. (j, v) is listed exactly when v was read in block j. |
| SuccessorArray.DecodeShort | src/m1graf2020/Graf.java:31 | An empty or one-value array gives node 1 alone, with no edge (the last value is never read). |
| SuccessorArray.SortedLists | src/m1graf2020/Graf.java:491 | Sorting the lists in place keeps the node set. |
| SuccessorArray.BlocksShape | src/m1graf2020/Graf.java:490-496 | The emitted array has one value per node and per list entry, ends in 0, and has one 0 per node when no list holds 0. |
| SuccessorArray.EncodeShape | src/m1graf2020/Graf.java:488-499 | toSuccessorArray has length nbNodes plus the number of successor entries, ends in 0 when it is not empty, and has one 0 per node when no list holds 0. |
| SuccessorArray.RoundTripLists | src/m1graf2020/Graf.java:25-40 | Decoding the blocks of nodes 1..n without the last 0 gives back exactly those lists, with one edge per entry. |
| SuccessorArray.RoundTrip | src/m1graf2020/Graf.java:488-499 | Round trip for a graph with ids exactly 1..n and duplicate-free, 0-free lists: `Graf(g.toSuccessorArray())` has g's sorted lists, and its edge list holds their entries in order. |
| SuccessorArray.StepsListMembers | src/m1graf2020/Graf.java:32-35 | Reading a list without 0 adds each of its values once to the current node's successors, and leaves the other nodes and the current node alone. |
| SuccessorArray.HoldNextBlock | src/m1graf2020/Graf.java:30-39 | Reading one more block, its list then its 0, completes that node's successor set and opens the next node. |
| SuccessorArray.RunBlocksMembers | src/m1graf2020/Graf.java:30-39 | Decoding the blocks of nodes 1..m gives those nodes with the values of their lists, and node m + 1 open and empty. |
| SuccessorArray.HoldLastList | src/m1graf2020/Graf.java:30-39 | Reading the last node's list without its final 0 gives exactly the nodes of the graph, each with the values of its list. |
| SuccessorArray.RoundTripListsMembers | src/m1graf2020/Graf.java:25-40 | Decoding the blocks of nodes 1..n without the last 0, duplicates allowed, gives back those nodes, each with exactly the values of its list. |
| SuccessorArray.RoundTripMembers | src/m1graf2020/Graf.java:488-499 | Round trip for any graph with ids exactly 1..n and lists without 0, multigraphs included: `Graf(g.toSuccessorArray())` has g's nodes, and y follows x in it exactly when y followed x in g. |
| SuccessorArray.TargetsAreNodes | src/m1graf2020/Graf.java:34 | When every value read is an opened node, every decoded successor is a node. |
| SuccessorArray.MirrorRun | src/m1graf2020/UndirectedGraf.java:22-28 | The undirected second pass keeps the node set. |
| SuccessorArray.MirrorRunSpec | src/m1graf2020/UndirectedGraf.java:22-28 | The second pass adds y to x's list exactly for the pairs (y, x) of the first pass, and never twice. Its block counter ends where the first pass's did. |
| SuccessorArray.UndirectedDecodeLists | src/m1graf2020/UndirectedGraf.java:19-29 | The undirected decoding has the directed decoding's nodes. y follows x exactly when either follows the other in the directed decoding. The lists stay duplicate-free. |
| SuccessorArray.UndirectedDecodeSymmetric | src/m1graf2020/UndirectedGraf.java:19-29 | The undirected decoding is symmetric. |
| Removal.Without | src/m1graf2020/Graf.java:163-165 | The edge list after the removals keeps exactly the edges not removed, in order. |
| Removal.RemoveFirstWithout | src/m1graf2020/Graf.java:327 | When every edge is listed once, `edgeList.remove(e)` deletes exactly that edge. |
| Removal.ListsAfterRemoveNode | src/m1graf2020/Graf.java:155-172 | removeNode drops exactly the node id from the node set. |
| Removal.ListsAfterRemoveNodeAt | src/m1graf2020/Graf.java:155-172 | Every other list loses one copy of id per edge k -> id, then one more copy in the final sweep. |
| Removal.RemoveNodeSpec | src/m1graf2020/Graf.java:155-172 | After removeNode the node is gone. The remaining edges are exactly the old ones, except those touching id whose source is a node. No list changes its count of any other value. |
| Removal.RemoveNodeForgets | src/m1graf2020/Graf.java:155-172 | Suppose every edge starts at a node and no list holds id more than once beyond its edges. Then no list and no edge mentions id afterwards. |
| Removal.RemoveNodeAbsent | src/m1graf2020/Graf.java:155-172 | removeNode of an id nothing refers to changes nothing. |
| Removal.RemoveNodeAbsentLists | src/m1graf2020/Graf.java:167-171 | With id in no list and not a node, the lists are unchanged. |
| Removal.RemoveNodeTwice | src/m1graf2020/Graf.java:155-172 | Under the condition of RemoveNodeForgets, removeNode twice equals removeNode once. |
| Removal.RemoveNodeNotIdempotent | src/m1graf2020/Graf.java:169-171 | Without that condition it is not idempotent: a list [id, id] becomes [id] and then []. |
| Removal.EdgesUntouched | src/m1graf2020/Graf.java:156-165 | With no edge touching id, the edge list is unchanged. |
| Removal.RemoveOneCopy | src/m1graf2020/Graf.java:169-171 | With no edge touching id, a list starting with id loses just that first entry. |
| Removal.MatchingCount | src/m1graf2020/Graf.java:163-165 | In a list holding each edge once, the edges k -> t are as many as the occurrences of the pair (k, t). |
| Removal.RemovedEdgeStep | src/m1graf2020/Graf.java:324-329 | One more removeEdge(e) drops e from the list exactly when its source is a node. |
| Removal.RemovingStart | src/m1graf2020/Graf.java:163 | Before the removeEdge loop nothing has been handled. |
| Removal.RemovingStep | src/m1graf2020/Graf.java:163-165 | One more removeEdge(e) on a collected edge keeps the description of the partial state. |
| Removal.RemovingDone | src/m1graf2020/Graf.java:163-165 | After every collected edge is handled, the edge list is final. Each other list has lost one copy of id per edge k -> id. |
| Removal.RemovedListStep | src/m1graf2020/Graf.java:326 | removeEdge(e) on a list other than id's keeps that list's count of removed copies exact. |
| Removal.SweepLists | src/m1graf2020/Graf.java:169-171 | The final sweep keeps the node set. |
| Removal.SweepingStep | src/m1graf2020/Graf.java:169-171 | Sweeping one more list keeps the description of the partial sweep. |
| Removal.SweepingDone | src/m1graf2020/Graf.java:169-171 | The finished sweep gives every list minus its first id. |
| Removal.SweptIsFinal | src/m1graf2020/Graf.java:167-171 | Dropping the node and then sweeping gives the final adjacency of removeNode. |
| Derived.ReverseKeys | src/m1graf2020/Graf.java:523-537 | The reverse holds the original nodes and every successor entry, and nothing else. |
| Derived.ReverseSuccessors | src/m1graf2020/Graf.java:530-535 | u follows v in the reverse exactly when v follows u in the graph. |
| Derived.ReverseClosedKeys | src/m1graf2020/Graf.java:523-537 | When every successor is a node, the reverse has exactly the original nodes. |
| Derived.ReverseClosed | src/m1graf2020/Graf.java:523-537 | Every successor in the reverse is a node of the reverse. |
| Derived.ReverseTwice | src/m1graf2020/Graf.java:523-537 | Reversing twice gives back the nodes and successor sets of a graph whose successors are all nodes. |
| Derived.ReverseStep | src/m1graf2020/Graf.java:531-534 | Handling node n last appends its swapped entries. |
| Derived.SourcesMembers | src/m1graf2020/Graf.java:547-550 | The predecessors of u are exactly the sources of the listed edges into u. |
| Derived.SourcesSnoc | src/m1graf2020/Graf.java:547-550 | One more edge adds its source to u's predecessors exactly when it enters u. |
| Derived.ProductMembers | src/m1graf2020/Graf.java:552-556 | The nested loops add exactly the pairs of a predecessor and a successor. |
| Derived.ClosureArcsSnoc | src/m1graf2020/Graf.java:546-557 | Handling u last appends the product of its predecessors and successors. |
| Derived.ClosureStep | src/m1graf2020/Graf.java:546-557 | One more node of the closure loop appends its product to the edges and adds its arcs. |
| Derived.ClosureArcsSpec | src/m1graf2020/Graf.java:546-557 | (x, y) is added exactly when some walked node u has an edge x -> u and y among its successors. |
| Derived.AddedSpec | src/m1graf2020/Graf.java:546-557 | Over all nodes, (x, y) is added exactly when some edge x -> u leads to a node u with successor y. |
| Derived.DecodedSuccessors | src/m1graf2020/Graf.java:544 | The graph read back from toSuccessorArray has the same nodes and successor sets, for dense ids and lists without 0, duplicate successors included. |
| Derived.DecodedKeys | src/m1graf2020/Graf.java:544 | The graph read back from toSuccessorArray has the same nodes (dense ids, lists without 0, multigraphs included). |
| Derived.ClosureSuccessors | src/m1graf2020/Graf.java:543-559 | For dense ids and lists without 0, multigraphs included: in the closure, y follows x exactly when it did in the graph or some edge x -> u leads to a node u with successor y. |
| Derived.ClosureKeepsNodes | src/m1graf2020/Graf.java:543-559 | The closure keeps every node (dense ids, lists without 0, multigraphs included). |
| Derived.ClosureIsOnePass | src/m1graf2020/Graf.java:543-559 | On the chain 1 -> 2 -> 3 -> 4 the closure adds 1 -> 3 but not 1 -> 4, although 4 is reachable from 1: it is a single pass, not a fixpoint. |
| Text.NatToString | src/m1graf2020/Graf.java:651 | The decimal digits of a natural number: nonempty, digits only, no leading zero. |
| Text.IntToString | src/m1graf2020/Graf.java:651 | Integer.toString: a minus sign exactly for negative values, then digits. |
| Text.IntToStringRoundTrip | src/m1graf2020/Graf.java:651 | Integer.parseInt of Integer.toString(n) is n. |
| Text.ParseNatToString | src/m1graf2020/Graf.java:651 | Reading the digits of n gives n. |
| Text.TerminatedIsJoin | src/m1graf2020/Graf.java:650-655 | Appending `id + ", "` for every id and then cutting the last two characters gives the ids joined by ", ". |
| Text.SplitTerminated | src/m1graf2020/Graf.java:656 | Lines each ended by a newline split back into those lines. |
| Text.SplitJoin | src/m1graf2020/Graf.java:650-655 | Splitting a ", "-joined list of comma-free pieces at commas gives the pieces back, all but the first after a blank. |
| Text.ReadIdsRoundTrip | src/m1graf2020/Graf.java:650-655 | Reading back a nonempty list written as ", "-separated ints gives the ints. |
| Dot.NotBelow | src/m1graf2020/UndirectedGraf.java:229-230 | The undirected writer keeps exactly the successors not below the node, in order. |
| Dot.TrimmedIsLine | src/m1graf2020/Graf.java:653-656 | Cutting the trailing ", " (when the text ends in a blank) and appending ";" gives the line of the node. |
| Dot.ReadLineRoundTrip | src/m1graf2020/Graf.java:646-657 | Reading a node's line back gives its id and exactly the ids it lists. |
| Dot.ReadLinesSpec | src/m1graf2020/Graf.java:646-657 | The lines of the walked nodes read back as their listing. |
| Dot.DotRoundTrip | src/m1graf2020/Graf.java:641-660 | Reading back the DOT text gives every node in ascending id order, each with the ids its line lists. |
| Dot.DirectedListsAll | src/m1graf2020/Graf.java:649-652 | A directed line lists every successor as often as it occurs, in ascending order. |
| Dot.UndirectedListsNotBelow | src/m1graf2020/UndirectedGraf.java:227-237 | An undirected line lists exactly the successors not below the node. |
| Dot.UndirectedEdgeOnce | src/m1graf2020/UndirectedGraf.java:229-237 | In symmetric lists, an edge between two distinct nodes appears on exactly one line, the smaller endpoint's. |
| Dot.DotEmpty | src/m1graf2020/Graf.java:644-658 | A graph with no node renders as "digraph {\n}", or "graph {\n}" for an undirected one. |
| Dot.DocumentSnoc | src/m1graf2020/Graf.java:646-657 | One more node appends its line and a newline to the document. |
| Dot.BuiltStep | src/m1graf2020/Graf.java:650-652 | One more appended id extends the built text by its rendering and ", ". |
| Dot.ListedStep | src/m1graf2020/UndirectedGraf.java:229-236 | After an id not below the node, " -- " has come first exactly once. The built text is the rendering of the ids listed so far. |
| Dot.AppendDirectedLine | src/m1graf2020/Graf.java:647-656 | The directed loop body appends exactly the node's line and a newline. |
| Dot.DirectedBuilt | src/m1graf2020/Graf.java:647-652 | The builder holds the tab, the id, " -> " when the list is not empty, and each id followed by ", ". |
| Dot.AppendUndirectedLine | src/m1graf2020/UndirectedGraf.java:226-242 | The undirected loop body appends exactly the node's line and a newline. |
| Dot.UndirectedBuilt | src/m1graf2020/UndirectedGraf.java:226-238 | The builder holds the tab, the id, then " -- " and each id not below the node followed by ", ". |
| Graphs.MarkRow | src/m1graf2020/Graf.java:512-514 | Row k-1 gets a 1 in column s-1 for each successor s. Every other cell is unchanged. |
| Graphs.FillMatrix | src/m1graf2020/Graf.java:510-515 | Starting from zeros, cell [i][j] is 1 exactly when j+1 is a successor of node i+1. |
| Graphs.SortAndEmit | src/m1graf2020/Graf.java:490-496 | The loop sorts every list and emits exactly the successor-array encoding. |
| Graphs.SortAndRender | src/m1graf2020/Graf.java:646-657 | The loop sorts every list and builds exactly the DOT text. |
| Graphs.SortedOutsideStep | src/m1graf2020/Graf.java:491 | Sorting one more visited list keeps "visited lists sorted, others untouched". |
| Graphs.SortedOutsideDone | src/m1graf2020/Graf.java:491 | After the walk every list is sorted. |
| Graphs.Predecessors | src/m1graf2020/Graf.java:547-550 | The loop collects the sources of the edges into u, in list order. |
| Graphs.SourcesOfInEdges | src/m1graf2020/Graf.java:547-550 | Those sources are the from-ids of getInEdges(u). |
| Graphs.ClosedOverStart | src/m1graf2020/Graf.java:544-546 | Before the closure loop, the new graph is the decoded one. |
| Graphs.Graf.constructor | src/m1graf2020/Graf.java:16-19 | `Graf()` and `UndirectedGraf()` have no node and no edge. |
| Graphs.Graf.FromSuccessorArray | src/m1graf2020/Graf.java:25-40 | `Graf(int...)` has the decoded lists and edge pairs. |
| Graphs.Graf.UndirectedFromSuccessorArray | src/m1graf2020/UndirectedGraf.java:19-29 | `UndirectedGraf(int...)` has the symmetrised lists and the directed decoding's edge pairs. |
| Graphs.Graf.ReadSuccessorArray | src/m1graf2020/Graf.java:28-39 | The constructor loop leaves the decoded lists and edge pairs. |
| Graphs.Graf.ReadValue | src/m1graf2020/Graf.java:31-38 | One loop iteration is one decoder step on the graph's state. |
| Graphs.Graf.GetNode | src/m1graf2020/Graf.java:103-107 | getNode is non-null exactly for existing ids, and then carries that id. |
| Graphs.Graf.GetSuccessors | src/m1graf2020/Graf.java:123-125 | getSuccessors is non-null exactly for existing ids, and then is that node's list. |
| Graphs.Graf.GetAllNodes | src/m1graf2020/Graf.java:206-209 | getAllNodes has nbNodes elements: exactly the existing ids, strictly ascending. |
| Graphs.Graf.GetOutEdges | src/m1graf2020/Graf.java:345-353 | Directed: the listed edges leaving the id, in list order. Undirected (UndirectedGraf.java:112-114): the incident edges. |
| Graphs.Graf.GetInEdges | src/m1graf2020/Graf.java:369-377 | Directed: the listed edges entering the id, in list order. Undirected (UndirectedGraf.java:130-132): the incident edges. |
| Graphs.Graf.GetIncidentEdges | src/m1graf2020/Graf.java:393-401 | The listed edges with the id at either end, in list order. |
| Graphs.Graf.UndirectedEdgeQueries | src/m1graf2020/UndirectedGraf.java:112-132 | In an undirected graph, getOutEdges and getInEdges are both getIncidentEdges. |
| Graphs.Graf.GetEdge | src/m1graf2020/Graf.java:403-410 | getEdge is null exactly when no edge u -> v is listed. Otherwise it is the first one. |
| Graphs.Graf.InDegree | src/m1graf2020/Graf.java:440-446 | Directed: the number of in-edges. Undirected (UndirectedGraf.java:172-174): the size of the list. |
| Graphs.Graf.Degrees | src/m1graf2020/Graf.java:480-482 | Directed degree is in-edges plus list size. Undirected (UndirectedGraf.java:172-192): inDegree, degree and outDegree are all the list size. |
| Graphs.Graf.AddNode | src/m1graf2020/Graf.java:94-96 | The node exists with an empty list even if it existed before. Other nodes, their lists and the edge list are unchanged. |
| Graphs.Graf.Adjacent | src/m1graf2020/Graf.java:198-200 | adjacent holds exactly when v follows u or u follows v. |
| Graphs.Graf.ExistsEdge | src/m1graf2020/Graf.java:235-238 | existsEdge is false when either node is missing. Otherwise it holds exactly when either follows the other. |
| Graphs.Graf.ExistsEdgeSymmetric | src/m1graf2020/Graf.java:235-238 | existsEdge(u, v) == existsEdge(v, u), even in a directed graph. |
| Graphs.Graf.ExistsEdgeRef | src/m1graf2020/Graf.java:245-249 | existsEdge(e) holds exactly when both ends are nodes and this very edge object is listed. |
| Graphs.Graf.AddEdge | src/m1graf2020/Graf.java:268-273 | addEdge creates missing ends and appends exactly one new edge u -> v (weight 0, no label), so nbEdges grows by 1 and existsEdge(u, v) holds. Lists follow AddArc, or AddLink for UndirectedGraf.java:80-85, whose reference-based dedup never fires. |
| Graphs.Graf.AddEnds | src/m1graf2020/Graf.java:269-270 | Each missing end becomes a node with an empty list. Nothing else changes. |
| Graphs.Graf.AppendEdge | src/m1graf2020/Graf.java:271 | `edgeList.add` appends the edge and keeps every edge listed once. |
| Graphs.Graf.AddWeightedEdge | src/m1graf2020/Graf.java:280-285 | As the directed addEdge, and the new edge carries the weight. |
| Graphs.Graf.RemoveEdge | src/m1graf2020/Graf.java:313-318 | Nothing changes if either node is missing. Otherwise u's list loses one v, every edge u -> v is removed, the other edges stay in order, and the node set is kept. |
| Graphs.Graf.RemoveEdgeRef | src/m1graf2020/Graf.java:324-329 | When the source is a node: its list loses the first copy of the target, and this very edge object is removed. Otherwise nothing changes. |
| Graphs.Graf.RemoveNode | src/m1graf2020/Graf.java:155-172 | The lists and edges become exactly ListsAfterRemoveNode and EdgesAfterRemoveNode (see the Removal lemmas). |
| Graphs.Graf.Touching | src/m1graf2020/Graf.java:156-161 | The first loop collects exactly the listed edges touching id. |
| Graphs.Graf.RemoveEdges | src/m1graf2020/Graf.java:163-165 | removeEdge on every collected edge, in any order, ends in the state RemovingDone describes. |
| Graphs.Graf.SweepNode | src/m1graf2020/Graf.java:169-171 | Every list loses its first copy of id. The edges are unchanged. |
| Graphs.Graf.AddNodes | src/m1graf2020/Graf.java:525-527 | The reverse starts with exactly the original nodes, each with an empty list. |
| Graphs.Graf.AddPair | src/m1graf2020/Graf.java:268-273 | The directed addEdge, seen as one arc added and one pair appended. |
| Graphs.Graf.AddEdgesFor | src/m1graf2020/Graf.java:552-556 | Repeated directed addEdge adds the arcs and appends the pairs in order. |
| Graphs.Graf.GetReverse | src/m1graf2020/Graf.java:523-537 | Directed: a new graph whose lists are Reverse(adj) and whose edges are the swapped entries in key order. Undirected (UndirectedGraf.java:198-200): the receiver itself. |
| Graphs.Graf.AddReversed | src/m1graf2020/Graf.java:530-535 | The second loop of getReverse adds the swapped entries of every node, in ascending order. |
| Graphs.Graf.ReverseNode | src/m1graf2020/Graf.java:531-534 | The body for node n adds the swapped entries of n's list. |
| Graphs.Graf.GetTransitiveClosure | src/m1graf2020/Graf.java:543-559 | A new graph with ClosureAdj/ClosurePairs (see ClosureSuccessors). The receiver's lists end sorted, because toSuccessorArray sorts them in place. |
| Graphs.Graf.AddClosureArcs | src/m1graf2020/Graf.java:546-557 | The loop adds the closure arcs of every node in ascending order. |
| Graphs.Graf.ClosureNode | src/m1graf2020/Graf.java:547-556 | The body for node u keeps the loop's description, with u handled. |
| Graphs.Graf.ToSuccessorArray | src/m1graf2020/Graf.java:488-499 | The result is Encode(adj), and the lists end sorted in place (see EncodeShape, RoundTrip). |
| Graphs.Graf.GetBFS | src/m1graf2020/Graf.java:563-597 | The output is exactly `Traversal.BreadthFirst` of the graph: polls in FIFO order, each queueing its still-uncoloured successors in list order. It starts with 1, lists nothing twice after it, and holds only nodes reachable from 1. When 1 is the least id it lists every node reachable from 1 exactly once. Otherwise the least node (greyed through color[0]) is never output. |
| Graphs.Graf.GetDFS | src/m1graf2020/Graf.java:603-621 | The output is exactly `Traversal.DepthFirst`: roots in ascending id order, successors in list order, each node output when its visit ends. It holds every node exactly once, and each successor of a node is output before it or reaches it. |
| Graphs.Graf.ToAdjMatrix | src/m1graf2020/Graf.java:505-517 | An n x n matrix whose cell [i][j] is 1 exactly when j+1 follows i+1, and 0 otherwise (ids within 1..n). |
| Graphs.Graf.ToDotString | src/m1graf2020/Graf.java:641-660 | The result is DotString(adj) (see DotRoundTrip and the line lemmas). The lists end sorted in place. Undirected rendering per UndirectedGraf.java:221-246. |
| Traversal.PlacesIndex | src/m1graf2020/Graf.java:572-577 | Numbering nodes by their place in key order is one-to-one onto 0..n-1. |
| Traversal.PlaceOfLeast | src/m1graf2020/Graf.java:579 | The least node is numbered 0, so `color[0]` is the least node's colour. |
| Traversal.IndexKeys | src/m1graf2020/Graf.java:572-577 | The index loop numbers exactly the nodes, each by its place in ascending id order. |
| Traversal.IndexingStep | src/m1graf2020/Graf.java:573-576 | One more entry numbers the next key with the counter. |
| Traversal.NumberedStep | src/m1graf2020/Graf.java:573-576 | One more numbered key keeps every visited key at its place. |
| Traversal.NumberedDone | src/m1graf2020/Graf.java:573-576 | At the end every numbered key carries its place in ascending order. |
| Traversal.NumberedAll | src/m1graf2020/Graf.java:573-576 | At the end exactly the nodes are numbered. |
| Traversal.NewColors | src/m1graf2020/Graf.java:570 | The colour array has one cell per node, all white. |
| Traversal.SearchColors | src/m1graf2020/Graf.java:579 | Then cell 0 alone turns grey. |
| Traversal.StartSearch | src/m1graf2020/Graf.java:568-579 | After getBFS's set-up: a one-to-one numbering, the least node at 0, and only cell 0 grey. |
| Traversal.SearchingStart | src/m1graf2020/Graf.java:579-582 | With node 1 queued and only the least node grey, the BFS invariant holds, and the whole of `Traversal.BreadthFirst` is still ahead. |
| Traversal.SearchingBound | src/m1graf2020/Graf.java:584-594 | The output and the queue together hold at most every node plus a second copy of node 1. |
| Traversal.SearchingStep | src/m1graf2020/Graf.java:585-593 | Polling u and queueing its white successors keeps the BFS invariant. |
| Traversal.SearchingDone | src/m1graf2020/Graf.java:584-596 | When the queue runs dry the output has the properties GetBFS states, and it is exactly `Traversal.BreadthFirst`. |
| Traversal.VisitSuccessors | src/m1graf2020/Graf.java:586-591 | The nodes queued are `Traversal.Queued` of u's successor list and the coloured nodes: the white successors, once each, in list order. They turn grey and no other colour changes. |
| Traversal.Poll | src/m1graf2020/Graf.java:585-593 | One round keeps the BFS invariant and the order of `Traversal.BreadthFirst`. It either grows the output plus queue (bounded by n + 1) or shrinks the queue, so the loop terminates. |
| Traversal.Queued | src/m1graf2020/Graf.java:586-591 | The successors one poll queues are exactly those in the list that are nodes and not yet coloured, each once. |
| Traversal.QueuedAt | src/m1graf2020/Graf.java:586-590 | The successor list is consumed one entry at a time: the next one is queued exactly when it is a node not yet coloured, and is coloured from then on. |
| Traversal.QueuingStep | src/m1graf2020/Graf.java:586-590 | After j successors, what is queued so far plus what the rest of the list queues is all the poll queues, one successor further on. |
| Traversal.QueuingKeep | src/m1graf2020/Graf.java:586-590 | A round of the inner loop keeps its invariant: a white successor turns grey and joins the queue; any other successor changes nothing. |
| Traversal.QueuingDone | src/m1graf2020/Graf.java:586-591 | At the end of the successor list, the queued nodes are exactly `Traversal.Queued` of the whole list. |
| Traversal.QueuedWhite | src/m1graf2020/Graf.java:586-589 | When every successor is a node, a poll queues exactly the white successors, each once. |
| Traversal.BfsFromUnfold | src/m1graf2020/Graf.java:584-594 | One poll of the reference search outputs the head of the queue. It then goes on with the rest of the queue followed by the queued successors, with the head and those successors coloured. |
| Traversal.ColouredStep | src/m1graf2020/Graf.java:586-592 | After a poll the coloured nodes are the earlier ones, the polled node and the nodes it queued. |
| Traversal.FollowingStep | src/m1graf2020/Graf.java:585-593 | A poll keeps this equality: the output so far, followed by the reference search from the current colours and queue, is `Traversal.BreadthFirst`. |
| Traversal.BreadthFirstLevels | src/m1graf2020/Graf.java:563-597 | On 1 -> 2, 3 and 2 -> 4 the search outputs [1, 2, 3, 4]: node 3, one step from 1, comes before node 4, two steps away. |
| Traversal.BreadthFirstTwice | src/m1graf2020/Graf.java:579-593 | When node 0 exists, color[0] greys it rather than node 1, so a self-loop on 1 queues 1 again: the output is [1, 1]. |
| Traversal.PostOrderedSnoc | src/m1graf2020/Graf.java:633-634 | Outputting u after all its successors are output, or reach it, keeps the post-order. |
| Traversal.KeptTrans | src/m1graf2020/Graf.java:628-632 | "Grey nodes the same, non-white colours kept" composes across successive visits. |
| Traversal.Greyed | src/m1graf2020/Graf.java:627 | Greying a white u leaves fewer white nodes (the recursion decreases), and every grey node reaches u. |
| Traversal.Finish | src/m1graf2020/Graf.java:633-634 | Blackening u and appending it keeps the output duplicate-free, exactly the black nodes and in post-order. It extends the old output. |
| Traversal.DfsVisit | src/m1graf2020/Graf.java:626-635 | dfs_visit(u) appends exactly what `Traversal.DfsFrom` outputs from the white nodes: the visits of u's white successors in list order, then u. The white nodes left are those DfsFrom leaves. The output stays duplicate-free, exactly the black nodes and post-ordered, and only white nodes change colour. |
| Traversal.VisitChildren | src/m1graf2020/Graf.java:628-632 | The loop appends exactly what `Traversal.DfsChildren` outputs for u's list and leaves its white set. Afterwards every successor of u is non-white. |
| Traversal.VisitChild | src/m1graf2020/Graf.java:629-631 | One round of the loop visits the j-th successor exactly when it is white, and keeps the loop tied to the reference. |
| Traversal.ChildLoopDone | src/m1graf2020/Graf.java:628-632 | When the loop ends, the output and the white set are those of `Traversal.DfsChildren` over the whole list. |
| Traversal.ChildrenStep | src/m1graf2020/Graf.java:629-631 | The reference from the j-th successor on is the visit of that successor (when white), then the reference from the next one. |
| Traversal.FinishRef | src/m1graf2020/Graf.java:633-634 | Appending u after its children's output is `Traversal.DfsFrom`'s output. |
| Traversal.WhitesRecolor | src/m1graf2020/Graf.java:627 | Colouring u grey or black removes exactly u from the white set. |
| Traversal.DfsFrom | src/m1graf2020/Graf.java:626-635 | The reference dfs_visit on values: it only ever removes nodes from the white set, u among them. |
| Traversal.DfsChildren | src/m1graf2020/Graf.java:628-632 | The reference loop over a successor list: the white set only shrinks. |
| Traversal.DfsRoots | src/m1graf2020/Graf.java:615-619 | The reference root loop over the keys: the white set only shrinks. |
| Traversal.FromUnfold | src/m1graf2020/Graf.java:626-635 | Visiting u is the visit of its children from the white set without u, then u. |
| Traversal.ChildrenUnfold | src/m1graf2020/Graf.java:628-632 | A successor that is not white is skipped; a white one is visited before the rest of the list. |
| Traversal.RootsUnfold | src/m1graf2020/Graf.java:615-619 | A key that is not white is skipped; a white one is visited before the remaining keys. |
| Traversal.DepthFirstCycle | src/m1graf2020/Graf.java:603-635 | On the cycle 1 -> 2 -> 1, getDFS outputs [2, 1]: 2 finishes inside the visit of 1. |
| Traversal.DepthFirstIsolated | src/m1graf2020/Graf.java:603-621 | Two nodes with no edge are output as [1, 2], in ascending id order. |
| Traversal.StartDepthFirst | src/m1graf2020/Graf.java:604-613 | After getDFS's set-up: a one-to-one numbering and every cell white. |
| Traversal.RootingStart | src/m1graf2020/Graf.java:615 | The root loop starts with nothing output, all nodes white and the whole reference search still ahead. |
| Traversal.AllWhite | src/m1graf2020/Graf.java:608-613 | Before any visit the white set is every node. |
| Traversal.RootsLeftStart | src/m1graf2020/Graf.java:615 | Before the root loop, the reference over all keys is still entirely ahead. |
| Traversal.RootsStep | src/m1graf2020/Graf.java:615-619 | Visiting the least remaining key when it is white, or skipping it, keeps the output a prefix of `Traversal.DepthFirst`, followed by the reference over the remaining keys. |
| Traversal.VisitRoot | src/m1graf2020/Graf.java:616-618 | One round of the root loop outputs the next key, visiting it if it is still white. |
| Traversal.RootingStep | src/m1graf2020/Graf.java:615-619 | A visit from the least remaining key keeps the root loop's invariant. |
| Traversal.RootingDone | src/m1graf2020/Graf.java:603-621 | At the end the output is exactly `Traversal.DepthFirst`, and every node is output exactly once, each after its successors unless they reach it. |

## Left out

- The `.dot` file constructors (Graf.java:47-72, UndirectedGraf.java:36-61) and `toDotFile` (Graf.java:665-678, UndirectedGraf.java:251-264) are left out. They are filesystem I/O. `Dot.ReadDot` is an independent reader of the whole text, used as the partner of `toDotString`. It is not the fixed-offset parse of those constructors.
- `randomGraph` (Graf.java:685-701) is left out: it depends on `Math.random`.
- `Main.java` is left out: it is the interactive console menu.
- `UndirectedGraf.getTransitiveClosure` (UndirectedGraf.java:202-214) is left out. It is marked unfinished, and it aliases the receiver while iterating the receiver's own lists.
- `Graf.addEdge(Node, Node)` (Graf.java:256-261) is left out. Its inverted existence test clears existing nodes and fails on missing ones.
- `Graf.removeEdge(Node, Node)` (Graf.java:303-306) is left out: it compares nodes by reference.
- The `addEdge(Edge)` overloads (Graf.java:291-296, UndirectedGraf.java:91-96) and the `Node`-typed overloads are left out. The `Node`-typed overloads only forward to the `int` ones.
- `UndirectedGraf.java` does not compile as written: line 83 calls an `Edge(int, int)` constructor that does not exist, and some overrides narrow visibility. The model follows the evident intent and builds the tested edge from the two nodes. Because `Edge` has no `equals`, the `edgeList.contains` test on a freshly built edge never matches, so the undirected `addEdge` always appends one edge.
- Node and edge labels and edge weights are payload. They are kept in `Node`/`Edge` and set by the constructors, but the graph stores only ids in its lists.
- `IdWatermark` is not threaded through the graph operations. The `new Node(...)` calls inside `Graf` would raise the watermark, but the model does not track that.
- `LinkedBlockingQueue` in `getBFS` is modelled as a plain FIFO sequence. Its concurrency features are unused.
- The `null` pointer failures are not modelled as behaviour. Where the Java code would fail, the model requires the input that avoids the failure:
  - `getBFS` requires node 1, and requires every successor of a node reachable from 1 to be a node (`Adjacency.ClosedFrom`). These are the only lookups it makes (Graf.java:586-588);
  - `getDFS` requires every successor to be a node;
  - `outDegree`, `degree`, the undirected `inDegree` and `adjacent` require the node to exist;
  - `toAdjMatrix` requires ids and successors within 1..n.
- The colour array of `getBFS`/`getDFS` is created white in one step. The Java code allocates a `null`-filled array and whitens each cell in the index loop, which has the same effect once the loop ends.
- `removeNode` iterates a `HashSet` whose order is unspecified. The model lets the order be arbitrary and proves the result does not depend on it.
- Graphs.Graf.GetBFS: completeness and no duplicates are proved only when node 1 is the least id. Otherwise `color[0]` greys a different node, and node 1 may be queued twice.
- Traversal.BreadthFirst, the reference order, passes over a successor that is not a node. The Java loop would throw on it (`index.get` returns `null`). `Graphs.Graf.GetBFS` requires every successor reachable from 1 to be a node, so the two never differ where it applies.
- Graphs.Graf.OutDegree: no ensures of its own. It is the size of the list, and `Graphs.Graf.Degrees` states its relation to the other degrees.
- Graphs.Graf.Degree: no ensures of its own. `Graphs.Graf.Degrees` states it for both kinds.
- Two properties the code's own documentation leads one to expect hold only in a weaker form, and the model follows the code:
  - The javadoc of `getTransitiveClosure` (Graf.java:537-540) promises "a direct edge" between "all currently mutually reachable nodes". The code makes a single composition pass instead (`Derived.ClosureIsOnePass`).
  - `removeNode` ("Removes a node from the graph", Graf.java:150-153) would be expected to be idempotent. It is idempotent only when no list holds extra copies of the id (`Removal.RemoveNodeNotIdempotent`).
