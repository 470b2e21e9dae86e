# BFS vs DFS graph explorer — verified model of its core

The application is a Tk window over a directed `networkx` graph. The user
types comma-separated node names or `u-v` edge texts to edit the graph. Then
the user runs a breadth-first search, an iterative depth-first search, or
both, from a start node towards an optional goal. Each search fills in a
statistics record: the traversal order, the path to the goal, the node
count, the time and the peak memory. A comparison tab then names a winner
per metric.

This project models the parts of that program that carry logic:

- `graph.dfy` (module `Graphs`) holds the directed graph as a map from each
  node to its successor list in insertion order. This is the order
  `neighbors` yields, so it decides which branch a DFS takes first. The
  module also has the four `networkx` edits, `clear`, walks and
  reachability.
- `text_items.dfy` (module `TextItems`) turns the entry text into items.
  It models `split(',')`, `strip()` with Python's whitespace set, the
  "keep the non-blank ones" comprehension, and the first-dash split of an
  edge text.
- `graph_store.dfy` (module `GraphStore`) holds the five edit buttons. The
  class `Store` owns the mutable graph. Its batch methods loop over the items
  exactly as the handlers do. Each method is proved equal to a left fold
  `ApplyBatch` of one-item steps. Lemmas state what each fold does to nodes,
  edges and errors.
- `traversal.dfy` (module `Traversal`) holds both searches as methods with
  loops over a queue or stack, a visited set and a parent map. It also holds
  the shared goal-path rebuild and the statistics record. The searches are
  proved against reachability:
  - the traversal order repeats no node;
  - it reaches everything reachable unless the goal stopped it;
  - BFS visits nodes in the order it discovers them, which is layer by
    layer, and finds a shortest goal path;
  - DFS visits nodes in the order a recursive depth-first search does. After
    each node comes the first unvisited successor of the latest visited node
    that still has one, so a dead end backtracks to the deepest open branch;
  - in both searches, the goal path links each node to the first visited
    node with an edge to it, the parent the source records.
- `comparison.dfy` (module `Comparison`) holds the comparison tab's
  outcome, its rows and winners, and the "Compare Algorithms" button. The
  button runs both searches, and two rows are proved decided in BFS's
  favour.

## Model

| member | source | states |
|---|---|---|
| Graphs.Graph.AddNode | BFSvsDFS.py:486 | the nodes become the old nodes plus `n`; no successor list changes |
| Graphs.Graph.RemoveNode | BFSvsDFS.py:503 | `n` is no longer a node; the edges are the old ones minus those touching `n`; other successor lists keep their order |
| Graphs.Graph.AddEdge | BFSvsDFS.py:527 | the edges are the old ones plus `u -> v`; `v` is appended to `u`'s successors only when the edge is new; missing ends become nodes |
| Graphs.Graph.RemoveEdge | BFSvsDFS.py:547 | the nodes stay; the edges are the old ones minus `u -> v` |
| Graphs.Graph.Clear | BFSvsDFS.py:554 | no node and no successor remains, and the empty graph is well formed |
| Graphs.EditsKeepValid | BFSvsDFS.py:486-554 | each of the four edits keeps a well-formed graph (edges only between nodes, no duplicate successor) well formed |
| Graphs.ClosedSetHoldsReachable | BFSvsDFS.py:185-200 | a set closed under successors that holds the start holds every node reachable from it |
| TextItems.TrimLeft | BFSvsDFS.py:477 | `lstrip`: the result is a suffix of the text that does not start with whitespace |
| TextItems.TrimLeftCuts | BFSvsDFS.py:477 | everything `lstrip` cuts off is whitespace |
| TextItems.TrimRight | BFSvsDFS.py:477 | `rstrip`: the result is a prefix of the text that does not end with whitespace |
| TextItems.TrimRightCuts | BFSvsDFS.py:477 | everything `rstrip` cuts off is whitespace |
| TextItems.Strip | BFSvsDFS.py:477 | the stripped text neither starts nor ends with whitespace |
| TextItems.StripTrims | BFSvsDFS.py:477 | the stripped text is one stretch of the input, with only whitespace around it |
| TextItems.StripKeepsChars | BFSvsDFS.py:477 | the stripped text holds only characters of the input |
| TextItems.Split | BFSvsDFS.py:477 | `split(',')`: at least one piece, no piece holds the separator, and joining the pieces with it gives back the text |
| TextItems.NonBlank | BFSvsDFS.py:477 | a text is an item exactly when it is the non-blank stripped form of some piece; there are never more items than pieces |
| TextItems.NonBlankOne | BFSvsDFS.py:477 | one piece gives its stripped form when that is non-blank, and no item otherwise |
| TextItems.NonBlankConcat | BFSvsDFS.py:477 | the items of two runs of pieces are the items of the first followed by those of the second, so the items keep the pieces' order and a repeated piece gives a repeated item |
| TextItems.ItemsAreStrippedPieces | BFSvsDFS.py:477 | standalone statement of the parsing promise, not a proof step: every item is non-blank, comma-free and stripped, and every non-blank piece yields an item |
| TextItems.SplitFirst | BFSvsDFS.py:520 | `split('-', 1)`: none exactly when there is no dash; otherwise the text is the head, the dash and the tail, with no dash in the head |
| TextItems.ParseEdge | BFSvsDFS.py:517-520 | an edge text has endpoints exactly when it contains a dash |
| TextItems.ParseEdgeHalves | BFSvsDFS.py:520 | standalone statement of the edge-text promise, not a proof step: the endpoints are the stripped halves around the first dash, so the first endpoint never holds a dash |
| GraphStore.AddNodeItem | BFSvsDFS.py:482-486 | a name already present raises `NodeExists` and changes nothing; any other name is added without error |
| GraphStore.RemoveNodeItem | BFSvsDFS.py:499-503 | a name that is not a node raises `NodeMissing` and changes nothing; a node is removed without error |
| GraphStore.AddEdgeItem | BFSvsDFS.py:516-527 | the item succeeds exactly when it has a dash, both ends are nodes and the edge is new, and then the edge is added. No dash raises `BadEdgeFormat`; a missing end raises `EndpointMissing`; an existing edge raises `EdgeExists`. A rejected item leaves the graph as it was |
| GraphStore.RemoveEdgeItem | BFSvsDFS.py:539-547 | the item succeeds exactly when it has a dash and names an existing edge, and then the edge is removed. No dash raises `BadEdgeFormat`; an edge that is not there raises `EdgeMissing`. A rejected item leaves the graph as it was |
| GraphStore.ApplyBatch | BFSvsDFS.py:482-547 | each of the four item loops (482-486, 499-503, 516-527, 539-547) raises at most one error per item |
| GraphStore.ApplyBatchKeepsValid | BFSvsDFS.py:476-552 | every batch edit keeps the graph well formed |
| GraphStore.AddNodesBatch | BFSvsDFS.py:476-491 | after adding a batch, the nodes are the old ones plus every item; no successor list changes; every error is a `NodeExists` for an item |
| GraphStore.AddNodesErrorCount | BFSvsDFS.py:482-486 | errors plus the new node count equal the items plus the old node count: each item adds a node or raises one error |
| GraphStore.RemoveNodesBatch | BFSvsDFS.py:493-508 | after removing a batch, the nodes are the old ones minus the items; the edges are those with neither end among the items; every error is a `NodeMissing` for an item |
| GraphStore.RemoveNodesErrorCount | BFSvsDFS.py:499-503 | each item removes one node or raises one error |
| GraphStore.AddEdgeItemEdge | BFSvsDFS.py:516-527 | after one add-edge item, `u -> v` is an edge exactly when it was one already, or the item names it and both ends are nodes |
| GraphStore.RemoveEdgeItemEdge | BFSvsDFS.py:539-547 | after one remove-edge item, `u -> v` is an edge exactly when it was one and the item does not name it |
| GraphStore.AddEdgesBatch | BFSvsDFS.py:510-531 | after adding a batch of edges, the nodes are unchanged; `u -> v` is an edge exactly when it was one or some item names it between existing nodes; successor lists only grow at the end |
| GraphStore.RemoveEdgesBatch | BFSvsDFS.py:533-552 | after removing a batch of edges, the nodes are unchanged; `u -> v` is an edge exactly when it was one and no item names it |
| GraphStore.AddEdgeItemAppends | BFSvsDFS.py:516-527 | one add-edge item leaves each old successor list a prefix of the new one, so successors are only appended |
| GraphStore.AddEdgeAppends | BFSvsDFS.py:527 | adding a new edge leaves each old successor list a prefix of the new one |
| GraphStore.Edges | BFSvsDFS.py:527 | the edge set holds a pair exactly when the graph has that edge |
| GraphStore.EdgesOfAddEdge | BFSvsDFS.py:527 | adding an edge the graph lacks adds one to the edge count |
| GraphStore.EdgesOfRemoveEdge | BFSvsDFS.py:547 | removing an edge the graph has takes one from the edge count |
| GraphStore.AddEdgeItemCount | BFSvsDFS.py:516-527 | an accepted add-edge item adds exactly one edge |
| GraphStore.RemoveEdgeItemCount | BFSvsDFS.py:539-547 | an accepted remove-edge item removes exactly one edge |
| GraphStore.AddEdgesErrorCount | BFSvsDFS.py:516-527 | errors plus the new edge count equal the items plus the old edge count: each item adds one edge or raises one error |
| GraphStore.RemoveEdgesErrorCount | BFSvsDFS.py:539-547 | errors plus the old edge count equal the items plus the new edge count: each item removes one edge or raises one error |
| GraphStore.AddEdgesErrors | BFSvsDFS.py:516-527 | every error of an add-edge batch is explained by an item: a `BadEdgeFormat` item without a dash, an `EndpointMissing` item naming an end that is not a node, or an `EdgeExists` item naming an edge the graph has at the end |
| GraphStore.RemoveEdgesErrors | BFSvsDFS.py:539-547 | every error of a remove-edge batch is explained by an item: a `BadEdgeFormat` item without a dash, or an `EdgeMissing` item naming an edge the graph lacks at the end |
| GraphStore.Store.constructor | BFSvsDFS.py:22 | the store starts with the empty, well-formed graph |
| GraphStore.Store.AddNodes | BFSvsDFS.py:476-491 | an entry without items reports `NoNodeNames` and changes nothing; otherwise the new graph and errors are the fold of the items, and the graph stays well formed |
| GraphStore.Store.RemoveNodes | BFSvsDFS.py:493-508 | same shape as `AddNodes`, for removal |
| GraphStore.Store.AddEdges | BFSvsDFS.py:510-531 | an entry without items reports `NoEdgeTexts` and changes nothing; otherwise the new graph and errors are the fold of the items (bad format, missing end, existing edge, else add), and the graph stays well formed |
| GraphStore.Store.RemoveEdges | BFSvsDFS.py:533-552 | same shape as `AddEdges`, for removal (bad format, missing edge, else remove) |
| GraphStore.Store.ClearGraph | BFSvsDFS.py:553-556 | afterwards there is no node and no successor, and the graph is well formed |
| Traversal.MakeStats | BFSvsDFS.py:215-223 | the record keeps both paths; the path length is the goal path's node count, and 0 exactly when there is no goal path |
| Traversal.Reverse | BFSvsDFS.py:213 | the result has the same length and reads the input back to front |
| Traversal.ReversedChainIsWalk | BFSvsDFS.py:207-213 | a parent chain read back to front is a walk from its last node to its first, with no repetition and the same members |
| Traversal.RebuildGoalPath | BFSvsDFS.py:207-213 | following parents from the goal and reversing gives a walk from the start to the goal, without repetition, one node longer than the goal's depth in the parent tree; each node after the first has the node before it as its recorded parent |
| Traversal.ReversedLinks | BFSvsDFS.py:209-213 | a chain of parent links read back to front has each node's parent just before it |
| Traversal.Discoverer | BFSvsDFS.py:197-200 | the node that finds `n` among nodes expanded in order: none exactly when no expanded node has an edge to `n`, otherwise an expanded node with such an edge |
| Traversal.DiscovererIsEarliest | BFSvsDFS.py:197-200 | when `seen[k]` has an edge to `n` and no node before it does, `seen[k]` is the one that finds `n` |
| Traversal.DiscovererSnoc | BFSvsDFS.py:197-200 | expanding one more node changes who found `n` only when nobody had, and then to that node exactly when it has an edge to `n` |
| Traversal.FindersGrow | BFSvsDFS.py:197-200 | recording the expanded node as parent of successors that had none keeps every parent the first expanded node with an edge to its child |
| Traversal.FoundInTurnExample | BFSvsDFS.py:207-213 | on `A -> [B, C], B -> [C]` after the traversal `A, B, C`, the only goal path to `C` along first finders is `A, C` |
| Traversal.GoalPathFound | BFSvsDFS.py:207-213 | a goal path along the parent links has each node after the first found by the node before it |
| Traversal.DiscoveredAreNew | BFSvsDFS.py:197-200 | the nodes a BFS step enqueues are exactly the unvisited, unqueued successors, each once |
| Traversal.DiscoveredSameSeen | BFSvsDFS.py:198 | what a BFS step enqueues depends only on which nodes are visited or waiting |
| Traversal.Discovery | BFSvsDFS.py:183-200 | the discovery order of a FIFO search that has expanded given nodes: it starts at the start node |
| Traversal.DiscoverySnoc | BFSvsDFS.py:197-200 | expanding one more node appends its successors not yet discovered, in adjacency order |
| Traversal.DiscoveryNodes | BFSvsDFS.py:183-200 | the discovery order repeats no node and holds exactly the start node and the successors of the expanded nodes |
| Traversal.FifoOrderExample | BFSvsDFS.py:185-200 | on `A -> [B, C]`, a breadth-first traversal from `A` visits `B` second, ahead of `C` in the same layer |
| Traversal.FifoVisit | BFSvsDFS.py:186-190 | taking the head of a queue that continues the discovery order keeps the traversal in discovery order |
| Traversal.FifoExpand | BFSvsDFS.py:186-200 | after expanding the head of the queue, the traversal followed by the queue is again the discovery order of the traversal |
| Traversal.EnqueueSuccessors | BFSvsDFS.py:197-200 | the queue grows by exactly the new successors, in adjacency order; each gets `current` as parent, and older parents stay |
| Traversal.ForestGrows | BFSvsDFS.py:197-200 | recording `current` as parent of new successors keeps the parent map a tree of reachable nodes |
| Traversal.ShortestByLevels | BFSvsDFS.py:185-213 | once every shallower node has been expanded, no walk from the start reaches the target in fewer steps than its depth |
| Traversal.WithinDepth | BFSvsDFS.py:197-200 | a node is within as many steps of the start as its depth in the parent tree |
| Traversal.DepthAtMostWalk | BFSvsDFS.py:185-200 | when every node recorded shallower than a bound has been expanded, a node no deeper than the bound is no deeper than any walk to it is long |
| Traversal.LayeredCloser | BFSvsDFS.py:185-200 | when every node recorded shallower than a bound has been expanded, every node a walk reaches in fewer steps than the bound has been expanded |
| Traversal.PathDepthIsDistance | BFSvsDFS.py:185-200 | where a BFS stops, each visited node's depth is at most the length of any walk to it |
| Traversal.LayeredOrder | BFSvsDFS.py:185-200 | where a BFS stops, it has visited nodes by distance: no node is farther from the start than one visited after it, and every node closer than the last one is visited |
| Traversal.BreadthFirstLoop | BFSvsDFS.py:178-200 | the BFS loop ends with a repetition-free traversal of reachable nodes, stopped at the goal or complete. Each node visited is the next one in the discovery order of the nodes visited before it, and nodes are visited in order of distance. Each recorded parent is the first visited node with an edge to its child, and the path to the goal is a shortest one |
| Traversal.BreadthFirstSearch | BFSvsDFS.py:170-225 | a missing start gives the error record. Otherwise the traversal starts at the start, repeats nothing and holds only reachable nodes. It ends at the goal when the goal was reached, and otherwise holds every reachable node. It visits layer by layer: no node is farther from the start than a node visited after it, and every node closer than the last one is visited. Inside a layer the order is fixed too: each visited node is the next one in the discovery order of the nodes visited before it. The goal path is a shortest walk from the start to the goal, and each of its nodes after the first is found by the node before it (the first visited node with an edge to it). The record carries the counts, the time in ms and the memory in KB |
| Traversal.FirstUnvisited | BFSvsDFS.py:253-258 | none exactly when every node of the list is seen; otherwise an unseen node of the list |
| Traversal.FirstUnvisitedIsEarliest | BFSvsDFS.py:253-258 | every node before the one found has been seen |
| Traversal.UnvisitedMembers | BFSvsDFS.py:255-257 | the nodes a DFS step pushes are exactly the unvisited successors |
| Traversal.UnvisitedIsFiltered | BFSvsDFS.py:255-257 | the first pushed-in-order successor is the first unvisited one |
| Traversal.PushUnvisited | BFSvsDFS.py:253-259 | the stack grows by the unvisited successors in reverse adjacency order, so the first unvisited successor ends on top; the pushed nodes are exactly the unvisited successors. A node pushed for the first time gets `current` as parent; earlier parents are kept |
| Traversal.NextFrom | BFSvsDFS.py:242-259 | where a recursive depth-first search goes next, looking back from a given visited node: never a visited node |
| Traversal.NextFromNone | BFSvsDFS.py:242-259 | the search has nowhere to go exactly when none of the visited nodes looked at has an unvisited successor |
| Traversal.NextFromIsDeepest | BFSvsDFS.py:242-259 | the search backtracks to the latest visited node that still has an unvisited successor, and goes to its first one |
| Traversal.NextVisit | BFSvsDFS.py:242-259 | the next node of a depth-first traversal is never one already visited |
| Traversal.NextVisitClosed | BFSvsDFS.py:242-259 | a depth-first traversal has nowhere left to go exactly when no edge leaves the visited nodes |
| Traversal.CompleteTraversalEnds | BFSvsDFS.py:242-259 | standalone statement of the ending rule, not a proof step: a traversal holding exactly the reachable nodes leaves the depth-first search nowhere to go |
| Traversal.PreorderTakesFirst | BFSvsDFS.py:253-258 | standalone statement of the depth-first rule, not a proof step: a depth-first traversal visits, after each node, that node's first unvisited successor whenever it has one |
| Traversal.PreorderGrows | BFSvsDFS.py:242-250 | visiting the node where the depth-first search goes next keeps the traversal in depth-first order |
| Traversal.PendingNext | BFSvsDFS.py:242-259 | the node on top of the stack entries still pending is where the depth-first search goes next, and nothing is pending exactly when it has nowhere to go |
| Traversal.DfsReachesGoal | BFSvsDFS.py:242-251 | visiting the goal from the top of the stack keeps the traversal in depth-first order and ends the search with the goal last |
| Traversal.DfsExhausted | BFSvsDFS.py:242-259 | when the stack runs dry, every reachable node has been visited, the traversal is in depth-first order, and the depth-first search has nowhere left to go |
| Traversal.DepthFirstLoop | BFSvsDFS.py:236-259 | the DFS loop ends with a repetition-free traversal of reachable nodes, stopped at the goal or complete, in which each node after the first is where a recursive depth-first search goes next. Each recorded parent is the first visited node with an edge to its child |
| Traversal.IterativeDepthFirstSearch | BFSvsDFS.py:227-284 | a missing start gives the error record. Otherwise the traversal starts at the start, repeats nothing and holds only reachable nodes. Each node after the first is where a recursive depth-first search goes next: the first unvisited successor of the latest visited node that still has one. It ends at the goal when the goal was reached, and otherwise holds every reachable node. The goal path is a walk from the start to the goal without repetition, and each of its nodes after the first is found by the node before it (the first visited node with an edge to it) |
| Comparison.Winner | BFSvsDFS.py:438 | BFS wins when its value is not larger; DFS only when strictly smaller |
| Comparison.MakeRow | BFSvsDFS.py:436-458 | a row keeps both values and names BFS exactly when BFS's value is not larger |
| Comparison.Compare | BFSvsDFS.py:408-460 | the tab asks for both runs exactly when one record is empty, and has nothing to show when one holds an error. Otherwise it shows both traversals, and both goal paths exactly when both exist. It has three rows (nodes, time, memory) plus a path-length row exactly when both path lengths are positive; each winner is BFS exactly when BFS's value is not larger |
| Comparison.ClearResults | BFSvsDFS.py:462-471 | both traversals are emptied and both records are reset to the empty record, the state in which `Compare` yields `RunBothFirst` (the program only blanks the comparison tab here) |
| Comparison.SameNodesSameLength | BFSvsDFS.py:185-259 | two repetition-free traversals over the same nodes have the same length |
| Comparison.CompareAlgorithms | BFSvsDFS.py:351-379 | an empty graph or no selected start is refused. The comparison never asks for both runs, since both records were just set. A start that is not a node leaves nothing to compare. Otherwise: with no reachable goal in force, both searches visit equally many nodes and BFS wins that row; with a reachable goal, the path-length row is shown and BFS wins it |

## Left out

- The Tk window, its widgets, message boxes, the slider and the graph drawing (`setup_ui`, `visualize_graph`, `animate_traversal`, `display_results`, `update_node_edge_controls`) are not modelled: they are presentation only. Of `clear_results`, only the emptying of the text widgets and the redraw are left out; the reset of the paths and statistics is `Comparison.ClearResults`. The error texts of the edit buttons are modelled as `EditError` values that carry the same names; the joined message text is not built.
- `time.time()` and `tracemalloc` are not modelled. Their readings are the `Measurement` parameter, and the statistics are computed from it as the source does. Reals stand in for Python floats, so rounding and the `.2f` formatting are not modelled.
- `run_bfs` and `run_dfs` (their guards, the animation and the per-algorithm display) are not modelled beyond the search they call. `compare_algorithms` is modelled with its two guards.
- `networkx` itself is not part of this model. `DiGraph` is modelled by its observable behaviour: nodes, successor lists in insertion order, and `add_node`, `remove_node`, `add_edge`, `remove_edge`, `clear`, `has_edge` and `neighbors`.
- Comparison.Compare: when one record holds only an error, the source stops with a `KeyError` on the missing `traversal_path`. The model returns `StatsIncomplete` instead of an exception.
- Comparison.Compare: the `RunBothFirst` branch ("Please run both algorithms first.") cannot be reached in the program, because `display_comparison` is called only from `compare_algorithms`, right after both records are set; `Comparison.CompareAlgorithms` ensures it never yields that outcome.
- Comparison.Compare compares node counts and path lengths as reals. This gives the same order as comparing the integers.
- The in-place `list.reverse()` of the goal path is modelled by the function `Reverse` on a sequence.
- Traversal.IterativeDepthFirstSearch does not promise a shortest goal path, because the DFS parent of a node is the first node that pushed it. It promises the walk along those first finders, as the source rebuilds it.
- The two search loops are written as their own methods, `Traversal.BreadthFirstLoop` and `Traversal.DepthFirstLoop`. The searches call them and then rebuild the goal path and fill in the record, as the source does after its loop.
