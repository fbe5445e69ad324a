# rust_graph in Dafny

A model of the directed-graph toolkit rust_graph and proofs about it. The model covers four parts:

- **The two-way id registry `DoubleMapping`** (`mapping.dfy`). Objects get ids starting at 1. A map
  takes each object to its id, and a sequence of optional slots takes each id back to its object.
  Removal has two modes. Sparse removal leaves a permanent empty slot. Compacting removal
  (`autodecrement`) deletes the slot and lowers every larger id by one. The class invariant
  `Valid()` is the two-way agreement between the map and the slots. In compacting mode it also
  says that no slot is empty.
- **Three storage backends.** Each keeps a running `edge_count`. Each backend's `Valid()` says
  that the counter equals the number of stored ordered pairs.
  - `AdjMatrix.AdjMatrixGraph` (`adj_matrix.dfy`) is keyed by object. It holds a vector of nodes and
    a map from each node to its vector of neighbours. It stands for `src/adj_matrix.rs` and also for
    the near-identical copy in `src/graph.rs`. The two copies differ only in where
    `remove_from_vec` is defined.
  - `IncMatrix.IncMatrixGraph` (`inc_matrix.dfy`) is keyed by object. It holds a square boolean
    matrix, indexed through a compacting `DoubleMapping`.
  - `AdjList.AdjListGraph` (`adj_list.dfy`) is keyed by `Index`. It holds a map from each index
    to its set of neighbours, plus a fresh-id counter.
- **Depth-first search** (`dfs.dfy` for the library's `Dfs`, `utils.dfy` for the free function).
  Each version returns the first simple path found by backtracking.
- **Unit-weight Dijkstra** (`dijkstra.dfy` for the library's `Dijkstra`, `utils.dfy` for the free
  function). It returns a path with the fewest edges.

The algorithms read a graph through `GraphContract.View` (`graph_contract.dfy`). A `View` holds a
node set and a map from each node to its neighbour list, in `iter_adj` order. That is all the
object-keyed `Graph<N>` trait of `src/graph.rs` exposes. `AdjMatrix.AdjMatrixGraph.Contract`
shows that `AdjMatrixGraph` presents exactly such a view.
`scenarios.dfy` replays two concrete runs: the cycle test of `src/graph.rs` and an id collision
in `AdjListGraph`.

Two places where the code does not do what its surroundings lead one to expect:

- The `Graph` trait documents `edge_count` as the count of edges in the graph
  (`rust_graph_lib/src/graph.rs:35-38`), and the object-keyed backends return early on a
  stored pair before counting (`src/adj_matrix.rs:44-55`, `rust_graph_lib/src/impls/inc_matrix.rs:54-64`).
  `AdjListGraph::add_edge` counts a repeated pair anyway (see Findings). The model keeps the code's
  behaviour: the invariant `Sound()` lets the counter run ahead of the stored pairs, and `Drift()`
  measures by how much.
- `AdjMatrixGraph::add_node` (`src/adj_matrix.rs:38-42`) appends the node without checking whether it
  is already present, although every other operation treats the node vector as holding each node
  once. The model requires a new node.

Rust's `HashMap`/`HashSet` become Dafny maps and sets, and `Vec` becomes a sequence. `Rc` sharing
is not modelled: nodes are values. `BinaryHeap` becomes a multiset. The `u32::MAX` distance
sentinel becomes `Dist.Inf`.

## Model

| member | source | states |
|---|---|---|
| Mapping.DoubleMapping.constructor | rust_graph_lib/src/mapping.rs:13-19 | an empty, consistent registry in the chosen removal mode |
| Mapping.DoubleMapping.GetById | rust_graph_lib/src/mapping.rs:64-69 | on a consistent registry, a found object is registered under exactly that id, and a miss means no object holds the id |
| Mapping.DoubleMapping.GetByObj | rust_graph_lib/src/mapping.rs:71-73 | found exactly for registered objects; looking the id back up gives the same object |
| Mapping.DoubleMapping.ContainsId | rust_graph_lib/src/mapping.rs:21-23 | true exactly when some registered object holds the id |
| Mapping.DoubleMapping.ContainsObj | rust_graph_lib/src/mapping.rs:25-27 | true exactly when the object is registered, which on a consistent registry means it occupies a slot |
| Mapping.DoubleMapping.IterObj | rust_graph_lib/src/mapping.rs:75-77 | exactly the live objects: everything yielded is contained, and every occupied slot's object is yielded |
| Mapping.DoubleMapping.Insert | rust_graph_lib/src/mapping.rs:29-40 | a registered object gives `None` and no change; a new one gets id = slot count + 1, above every existing id, and both lookups then agree on it; the two-way invariant is kept |
| Mapping.DoubleMapping.Remove | rust_graph_lib/src/mapping.rs:42-62 | an id nobody holds gives `None` and no change; otherwise returns that id's object and forgets it; sparse mode empties the slot, compacting mode deletes it and lowers every larger id; the invariant is kept in both modes |
| Mapping.DoubleMapping.LowerIdsAbove | rust_graph_lib/src/mapping.rs:50-54 | the renumbering loop lowers every id above the removed one by exactly one and changes nothing else |
| Mapping.InsertKeepsConsistent | rust_graph_lib/src/mapping.rs:33-36 | giving a new object id slot count + 1 and appending its slot keeps the two-way invariant |
| Mapping.SparseRemoveKeepsConsistent | rust_graph_lib/src/mapping.rs:45-47 | emptying a slot and dropping its object keeps the invariant of a sparse registry |
| Mapping.CompactRemoveKeepsConsistent | rust_graph_lib/src/mapping.rs:48-54 | deleting a slot and lowering every larger id keeps the invariant, gap-freedom included |
| Mapping.CompactKeepsSlots | rust_graph_lib/src/mapping.rs:49-54 | after compacting removal every object's lowered id points at its own slot |
| Mapping.CompactKeepsObjects | rust_graph_lib/src/mapping.rs:49-54 | after compacting removal every occupied slot names an object whose id points back at it |
| Mapping.ConsistentInjective | rust_graph_lib/src/mapping.rs:7-8 | two objects with the same id are the same object |
| Mapping.DenseSize | rust_graph_lib/src/mapping.rs:7-8 | in a gap-free registry the number of objects equals the number of slots |
| Mapping.DropLastKeepsConsistent | rust_graph_lib/src/mapping.rs:7-8 | the last slot of a gap-free registry is occupied, and dropping it with its object keeps the invariant |
| IncMatrix.IncMatrixGraph.constructor | rust_graph_lib/src/impls/inc_matrix.rs:21-27 | no nodes, no edges, counter 0, a compacting registry |
| IncMatrix.IncMatrixGraph.HasNode | rust_graph_lib/src/impls/inc_matrix.rs:66-68 | true exactly for registered nodes |
| IncMatrix.IncMatrixGraph.HasEdge | rust_graph_lib/src/impls/inc_matrix.rs:70-77 | true exactly for present pairs, and false whenever an endpoint is unregistered |
| IncMatrix.IncMatrixGraph.AddNode | rust_graph_lib/src/impls/inc_matrix.rs:46-52 | for an unregistered node: registered under id size + 1, the matrix grows by an unset row and column, the pairs and the counter stay |
| IncMatrix.IncMatrixGraph.FindOrAdd | rust_graph_lib/src/impls/inc_matrix.rs:29-36 | returns the node's zero-based slot, registering it if needed; earlier ids, pairs and the counter stay |
| IncMatrix.IncMatrixGraph.AddEdge | rust_graph_lib/src/impls/inc_matrix.rs:54-64 | both endpoints become nodes, the pair becomes present, the counter rises by one exactly when the pair was absent, and the invariant holds |
| IncMatrix.IncMatrixGraph.RemoveEdge | rust_graph_lib/src/impls/inc_matrix.rs:96-108 | exactly that pair disappears, nodes stay, and the counter drops by one exactly when the pair was present |
| IncMatrix.IncMatrixGraph.RemoveNode | rust_graph_lib/src/impls/inc_matrix.rs:80-94 | an absent node changes nothing; otherwise the node leaves, its row and column are deleted, later ids drop by one, exactly the pairs touching it disappear, and the counter stays exact (a self-loop counted once) |
| IncMatrix.IncMatrixGraph.GrowMatrix | rust_graph_lib/src/impls/inc_matrix.rs:48-51 | the push loops produce the matrix grown by an unset row and column, with the set-cell count unchanged |
| IncMatrix.IncMatrixGraph.ShrinkMatrix | rust_graph_lib/src/impls/inc_matrix.rs:85-92 | the row and column removal loop produces the matrix without row and column k, and the counter equals its set cells |
| IncMatrix.IncMatrixGraph.NodeCount | rust_graph_lib/src/impls/inc_matrix.rs:110-112 | the matrix size equals the number of registered nodes |
| IncMatrix.IncMatrixGraph.EdgeCount | rust_graph_lib/src/impls/inc_matrix.rs:114-116 | the counter equals the number of present pairs |
| IncMatrix.IncMatrixGraph.IterNodes | rust_graph_lib/src/impls/inc_matrix.rs:118-120 | exactly the registered nodes, as many as `node_count` |
| IncMatrix.IncMatrixGraph.IterAdj | rust_graph_lib/src/impls/inc_matrix.rs:122-136 | corrected lookup: none exactly for an unregistered node, otherwise exactly the targets of its pairs |
| IncMatrix.IncMatrixGraph.IterEdges | rust_graph_lib/src/impls/inc_matrix.rs:138-144 | built on the corrected `iter_adj`: exactly the present pairs |
| IncMatrix.Neighbours | rust_graph_lib/src/impls/inc_matrix.rs:125-131 | the intended neighbour list of a row: one object per set cell, each the object of that column's slot |
| IncMatrix.IterAdjShifted | rust_graph_lib/src/impls/inc_matrix.rs:127 | with nodes a (id 1) and b (id 2), the code as written reports a for the edge a -> b, and it panics for the edge b -> a; the corrected lookup gives b and a |
| IncMatrix.EdgesSize | rust_graph_lib/src/impls/inc_matrix.rs:54-64 | on a consistent registry the number of present pairs equals the number of set cells, so an exact counter is the set-cell count |
| IncMatrix.UpdateCellEdges | rust_graph_lib/src/impls/inc_matrix.rs:62 | setting or clearing one cell adds or removes exactly that pair |
| IncMatrix.ShrinkEdges | rust_graph_lib/src/impls/inc_matrix.rs:83-92 | deleting a node's row and column, with the ids renumbered, keeps exactly the pairs that do not touch it |
| IncMatrix.GrowKeepsEdges | rust_graph_lib/src/impls/inc_matrix.rs:47-51 | registering a new node and growing the matrix keeps the pairs |
| IncMatrix.CellCountWithout | rust_graph_lib/src/impls/inc_matrix.rs:85-86 | deleting a row lowers the set-cell count by that row's set cells |
| IncMatrix.RowCountWithout | rust_graph_lib/src/impls/inc_matrix.rs:88-91 | deleting one cell of a row lowers its count by one exactly when the cell was set |
| IncMatrix.CellCountUpdate | rust_graph_lib/src/impls/inc_matrix.rs:62-63 | replacing a row changes the set-cell count by the difference of the rows' counts |
| AdjList.Index.Next | rust_graph_lib/src/impls/adj_list.rs:9-11 | the next index is strictly larger, so it differs |
| AdjList.AdjListGraph.constructor | rust_graph_lib/src/impls/adj_list.rs:33-38 | no nodes, counter 0, the first id is 1 |
| AdjList.AdjListGraph.AddNode | rust_graph_lib/src/impls/adj_list.rs:51-56 | returns the counter's id and advances it; that id gets an empty set; closure and the counter's lower bound are kept, and the counter runs further ahead by exactly the pairs a reused id loses; while every id in use lies below the counter, the id is new, the graph gains one node, and a valid graph stays valid |
| AdjList.AdjListGraph.AddEdge | rust_graph_lib/src/impls/adj_list.rs:58-62 | as written, from any sound state: both endpoints become keys, the pair becomes present, and the counter always rises by one, so its distance to the stored pairs grows by one exactly for a repeated pair; a new pair keeps a valid graph valid |
| AdjList.AdjListGraph.AddEdgeOnce | rust_graph_lib/src/impls/adj_list.rs:58-62 | corrected: the counter rises only for a new pair, so its distance to the stored pairs never changes and a valid graph stays valid |
| AdjList.AdjListGraph.RemoveEdge | rust_graph_lib/src/impls/adj_list.rs:82-88 | from any sound state: exactly that pair disappears, the counter drops by one exactly when it was present, so its distance to the stored pairs is unchanged and validity is kept |
| AdjList.AdjListGraph.RemoveNode | rust_graph_lib/src/impls/adj_list.rs:64-80 | from any sound state: a non-key changes nothing; otherwise the key goes, `n` leaves every other set, one node fewer, and the counter drops by the out-degree plus the number of sets that held `n`, exactly the pairs lost, so it never underflows and validity is kept |
| AdjList.AdjListGraph.NodeCount | rust_graph_lib/src/impls/adj_list.rs:90-92 | the number of keys |
| AdjList.AdjListGraph.EdgeCount | rust_graph_lib/src/impls/adj_list.rs:94-96 | the counter in every state; never below the number of present pairs on a sound graph, and equal to it on a valid one |
| AdjList.AdjListGraph.HasEdge | rust_graph_lib/src/impls/adj_list.rs:98-100 | true exactly when `f` has a set containing `t` |
| AdjList.AdjListGraph.IterNodes | rust_graph_lib/src/impls/adj_list.rs:102-104 | exactly the ids `iter_adj` knows |
| AdjList.AdjListGraph.IterAdj | rust_graph_lib/src/impls/adj_list.rs:106-112 | none exactly for a non-key; on a closed graph every id yielded is itself a node |
| AdjList.AdjListGraph.IterEdges | rust_graph_lib/src/impls/adj_list.rs:114-121 | exactly the pairs `has_edge` accepts |
| AdjList.Forget | rust_graph_lib/src/impls/adj_list.rs:73-79 | the loop removes `n` from every set and counts the sets that held it, which is exactly the number of pairs lost |
| AdjList.LinkedPairs | rust_graph_lib/src/impls/adj_list.rs:59-60 | the two entry insertions add exactly the pair `(f, t)` |
| AdjList.DropEntry | rust_graph_lib/src/impls/adj_list.rs:69-71 | dropping a key loses exactly its outgoing pairs, as many as its set's size |
| AdjList.UnlinkedPairs | rust_graph_lib/src/impls/adj_list.rs:64-80 | removing a node keeps exactly the pairs that do not touch it |
| AdjMatrix.AdjMatrixGraph.constructor | src/adj_matrix.rs:15-21 | no nodes, no lists, counter 0 |
| AdjMatrix.AdjMatrixGraph.Contract | src/graph.rs:11-23 | the trait's view of the graph answers `has_node`, `has_edge` and `iter_adj` as the backend does, and on a valid graph it is well formed and every node has a list |
| AdjMatrix.AdjMatrixGraph.HasNode | src/adj_matrix.rs:98-100 | membership in the node vector, which on a valid graph means having a list |
| AdjMatrix.AdjMatrixGraph.HasEdge | src/adj_matrix.rs:102-108 | true exactly for stored pairs, so false when `f` has no list |
| AdjMatrix.AdjMatrixGraph.AddNode | src/adj_matrix.rs:38-42 | for a node not yet present: appended with an empty list, one node more, pairs unchanged |
| AdjMatrix.AdjMatrixGraph.FindOrAdd | src/adj_matrix.rs:23-30 | the node, added first when it is new; pairs and counter unchanged |
| AdjMatrix.AdjMatrixGraph.AddEdge | src/adj_matrix.rs:44-55 | a present pair changes nothing; otherwise the endpoints are registered, `t` is appended to the list of `f`, and the counter rises by one; the pairs gain exactly `(f, t)` and lists stay free of duplicates; the copy at src/graph.rs:70-81 is the same |
| AdjMatrix.AdjMatrixGraph.RemoveEdge | src/adj_matrix.rs:77-88 | an absent pair changes nothing; otherwise the first `t` leaves the list of `f`, and the counter drops by one; exactly that pair disappears |
| AdjMatrix.AdjMatrixGraph.RemoveNode | src/adj_matrix.rs:57-75 | an absent node changes nothing; otherwise it leaves the node vector, its list goes, `n` leaves every other list, and the counter drops by the list length plus one per list that held `n`; exactly the pairs touching `n` disappear; the copy at src/graph.rs:83-101 is the same |
| AdjMatrix.AdjMatrixGraph.NodeCount | src/adj_matrix.rs:90-92 | the number of nodes equals the number of lists |
| AdjMatrix.AdjMatrixGraph.EdgeCount | src/adj_matrix.rs:94-96 | the counter equals the number of stored pairs and the sum of the list lengths |
| AdjMatrix.AdjMatrixGraph.IterNodes | src/adj_matrix.rs:110-112 | each node once, exactly the nodes with a list |
| AdjMatrix.AdjMatrixGraph.IterAdj | src/adj_matrix.rs:114-121 | none exactly for a node without a list, otherwise exactly its targets, each once |
| AdjMatrix.AdjMatrixGraph.IterEdges | src/adj_matrix.rs:123-129 | exactly the pairs `has_edge` accepts, as many as `edge_count` |
| AdjMatrix.RemoveFromVec | src/adj_matrix.rs:181-188 | reports whether the item occurs; removes its first occurrence only, keeping everything before it; the associated function at src/graph.rs:53-60 is the same |
| AdjMatrix.FirstPosition | src/adj_matrix.rs:182 | the index of the first element equal to the item |
| AdjMatrix.ForgottenOccurrences | src/adj_matrix.rs:181-188 | removal takes away exactly one occurrence of the item and keeps every other element |
| AdjMatrix.ForgottenDistinct | src/adj_matrix.rs:181-188 | in a list without repeats, removal keeps the other elements and leaves no copy of the item |
| AdjMatrix.ForgetEverywhere | src/adj_matrix.rs:67-74 | the loop removes `n` from every list and counts the lists that held it, which is exactly the number of pairs lost |
| AdjMatrix.LinkedShaped | src/adj_matrix.rs:48-54 | appending a new pair keeps lists duplicate-free and adds exactly that pair |
| AdjMatrix.RemoveNodeShaped | src/adj_matrix.rs:62-74 | removing a node keeps the shape and exactly the pairs that do not touch it |
| AdjMatrix.PairsFromSize | src/adj_matrix.rs:94-96 | with no repeats in the lists, the number of pairs equals the sum of the list lengths |
| GraphContract.View.IterAdj | src/graph.rs:21 | none exactly for a node without an entry; everything yielded is an edge target, and on a well-formed view a node that `has_node` accepts |
| GraphContract.ClosedBlocksPaths | rust_graph_lib/src/algorithms/dfs.rs:27-39 | once every neighbour of every visited node has been tried, no path leads from a covered node to an unvisited `to` |
| Dfs.InnerDfs | rust_graph_lib/src/algorithms/dfs.rs:19-40 | success extends the stack to a simple path ending at `to`; failure restores the stack and leaves every neighbour of every newly visited node tried |
| Dfs.Run | rust_graph_lib/src/algorithms/dfs.rs:44-54 | `None` for an unregistered endpoint or `from == to`; a returned path is simple, has at least two nodes, and runs from `from` to `to` along edges; `None` otherwise means no path exists |
| Utils.InnerDfs | src/utils.rs:28-53 | as `Dfs.InnerDfs`, with a node marked visited only when `iter_adj` has an entry for it |
| Utils.Dfs | src/utils.rs:12-26 | the same guarantees as `Dfs.Run` |
| Dijkstra.CompareDist | rust_graph_lib/src/algorithms/dijkstra.rs:20 | the distance order, with the sentinel above every finite distance |
| Dijkstra.Compare | rust_graph_lib/src/algorithms/dijkstra.rs:17-22 | the distance order reversed, ties broken by node order; the comparator at src/utils.rs:58-63 is the same |
| Dijkstra.PopIsNearest | rust_graph_lib/src/algorithms/dijkstra.rs:55 | the maximum under the reversed comparator has the least distance in the heap |
| Dijkstra.NearestExists | rust_graph_lib/src/algorithms/dijkstra.rs:55 | a nonempty heap has an entry of least distance |
| Dijkstra.Initialise | rust_graph_lib/src/algorithms/dijkstra.rs:49-53 | every node gets no predecessor, distance 0 for `from` and the sentinel otherwise, and a matching heap entry |
| Dijkstra.RelaxNeighbours | rust_graph_lib/src/algorithms/dijkstra.rs:60-71 | relaxation keeps every recorded predecessor an edge with a strictly smaller distance, and afterwards no neighbour is more than one step further than the node |
| Dijkstra.RelaxStep | rust_graph_lib/src/algorithms/dijkstra.rs:66-69 | one improving relaxation keeps the predecessor, heap and settled invariants |
| Dijkstra.PopStep | rust_graph_lib/src/algorithms/dijkstra.rs:55 | popping a nearest entry keeps the heap invariants and shrinks the termination measure |
| Dijkstra.FinalAtStop | rust_graph_lib/src/algorithms/dijkstra.rs:56-58 | when the loop breaks on the sentinel or on `to`, the distance of `to` is at most the length of every path to it from a registered `from` |
| Dijkstra.FinalWhenExhausted | rust_graph_lib/src/algorithms/dijkstra.rs:55 | when the heap empties before `to` settles, no path leads to `to` from a registered `from` |
| Dijkstra.WalkBack | rust_graph_lib/src/algorithms/dijkstra.rs:79-89 | the walk along predecessors gives a simple path from `from` to `to` no longer than `to`'s distance plus one |
| Dijkstra.Reversed | rust_graph_lib/src/algorithms/dijkstra.rs:88 | element i of the result is element n-1-i of the input |
| Dijkstra.Run | rust_graph_lib/src/algorithms/dijkstra.rs:45-90 | `None` for an unregistered endpoint, `from == to` or an unreachable `to`; otherwise a simple path from `from` to `to` with no more edges than any other path |
| Utils.ShortestPath | src/utils.rs:74-120 | the same guarantees as `Dijkstra.Run`, for graphs where every node has an adjacency entry |
| Scenarios.RemoveNodesOfCycle | src/graph.rs:237-258 | the cycle 1 -> 2 -> 3 -> 1 has node and edge counts (3, 3); removing 1, 2 and 3 in turn gives (2, 1), (1, 0) and (0, 0) |
| Scenarios.ForeignEdgeOverwritten | rust_graph_lib/src/impls/adj_list.rs:51-62 | after `add_edge(1, 2)` on a new graph, `add_node` hands out id 1 again and wipes the edge, while the counter still says 1 |

## Left out

- Formatting (`Display`, `Debug` and the `Rc` count printing) and the demo programs are not modelled.
  They only do input and output.
- `Rc` sharing and `Rc::try_unwrap` are not modelled: nodes are plain values.
- Iteration order of `HashMap` and `HashSet` is not modelled. Iterators become sets where the
  source iterates a hash container. Neighbour vectors keep their order.
- Integer widths are not modelled: counters and ids are unbounded, so `usize` and `u32` overflow
  cannot occur. The sentinel `u32::MAX` is `Dist.Inf`. A real distance is therefore never confused
  with it, which the code also assumes.
- Mapping.DoubleMapping.GetById: requires `id >= 1`. The source subtracts one from `id`, so an id of 0
  underflows. Mapping.DoubleMapping.ContainsId requires the same, since it calls `get_by_id`.
- Mapping.DoubleMapping.Remove: requires `id >= 1`, for the same reason (it calls `get_by_id`).
- AdjMatrix.AdjMatrixGraph.AddNode: requires the node to be absent. The source appends without checking,
  and a present node would then be listed twice and lose its neighbours.
- IncMatrix.IncMatrixGraph.AddNode: requires the node to be unregistered. The source unwraps the
  registry's answer and panics on a duplicate.
- AdjList.AdjListGraph.AddNode: `Valid()` (counter equal to the stored pairs) is promised only when the
  counter's id is not already a key. `add_edge` accepts ids that were never issued, so the id can be in
  use; `Issued()` states the condition under which it is not. `Sound()` is always kept.
- AdjList.AdjListGraph.AddEdge: `Valid()` is promised only for a new pair, because the code counts a
  repeated pair twice (see Findings). `Sound()` is always kept.
- Utils.ShortestPath: requires every node to have an adjacency entry. The source unwraps `iter_adj`
  and would panic otherwise. It also requires `WellFormed()`, every neighbour a node: the source
  indexes `preds[adj]` (`src/utils.rs:95`) and would panic on a neighbour that `iter_nodes` never
  yielded. `AdjMatrix.AdjMatrixGraph.Contract` proves both requirements for that backend.
- Dijkstra.Run: the heap pop is modelled as taking some entry of least distance.
  `PopIsNearest` proves that the real pop is one of these. Which path is returned among several
  shortest ones is left open. It also requires `WellFormed()`, every neighbour a node: the source
  indexes `preds[adj]` (`rust_graph_lib/src/algorithms/dijkstra.rs:65`) and would panic on a neighbour
  that `iter_nodes` never yielded. `AdjMatrix.AdjMatrixGraph.Contract` proves this for that backend.
- `IncMatrixGraph::iter_adj` and `iter_edges` as written are not used by the rest of the model.
  `NeighboursAsWritten` records their lookup, and the model uses the corrected `IterAdj`.
- The `build_graph!` test macro, `slice_equal`, and the declaration-only modules are not modelled.
  They declare only signatures or help tests.

## Findings

| source | as written | input that shows it | evidently intended | confidence | as-written member | corrected member |
|---|---|---|---|---|---|---|
| rust_graph_lib/src/impls/inc_matrix.rs:127 | `iter_adj` looks up the zero-based column `j` with the one-based `get_by_id(j)` | nodes a (id 1) and b (id 2) with edge a -> b: the neighbour reported is a; with edge b -> a the lookup of column 0 underflows and the `unwrap` panics | look up `get_by_id(j + 1)`, giving the object of slot `j` | high (not executed) | IncMatrix.IterAdjShifted | IncMatrix.IncMatrixGraph.IterAdj |
| rust_graph_lib/src/impls/adj_list.rs:61 | `add_edge` increments `edge_count` even when the pair is already present | `add_edge(1, 2)` twice: one stored pair, `edge_count() == 2` | increment only when the set insertion adds `t` | high (not executed) | AdjList.AdjListGraph.AddEdge | AdjList.AdjListGraph.AddEdgeOnce |
