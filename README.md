# Breadth-first and depth-first search with alphabetical tie-breaking

This project models the traversal engine of `sd23061_lab1.py`. It has two
searches over a directed graph given as an adjacency dictionary:

- `breadth_first_search` uses a FIFO `deque`.
- `depth_first_search` uses a LIFO list.

Both searches return `(path, process_steps, level)`. Their shared rules are:

- A missing key means the node has no successors (`graph.get(n, [])`).
- BFS scans successors in ascending order. DFS scans them in descending
  order, so the smallest unvisited successor is pushed last and popped first.
- A node is marked visited, and gets its parent and level, when it is first
  discovered. Nothing overwrites those entries later.
- The loop stops as soon as the goal is taken off the frontier. The goal's
  own expansion writes no trace row.
- Every other expansion appends a row. The row holds the step number, the
  expanded node, its level, a frontier snapshot and a copy of the visited set.
- The path is rebuilt by following `parent_map` back from the goal, then
  reversing.

The modules:

- `Graphs` holds the graph and walks: `Succ` is `graph.get(n, [])`, and it
  also defines reachability and closed sets.
- `Sequences` holds `sorted` (ascending and with `reverse=True`), `[::-1]`,
  and the facts about them that the searches use.
- `Discovery` holds what both searches share:
  - the discovery loop, as a method proved against a function;
  - the parent/level tree;
  - the trace rows;
  - path reconstruction, as a method.
- `BreadthFirst` and `DepthFirst` model each search as methods with loops
  (`BfsLoop`/`DfsLoop`, the loop bodies `BfsExpand`/`DfsExpand`, and the
  whole functions `BreadthFirstSearch`/`DepthFirstSearch`). Each method is
  proved against specification functions of the sequence of expanded nodes:
  - `BfsOrder` is the order in which BFS enqueues nodes;
  - `DfsStack` and `DfsVisited` are the DFS stack and visited set;
  - `BfsParents`/`BfsLevels` and `DfsParents`/`DfsLevels` are the maps;
  - `BfsSteps`/`DfsSteps` are the trace rows.

  Lemmas then prove what the source promises about those functions. The
  properties of `Sort`, `SortDesc`, `Pop`, `DfsStack`, `DfsSteps` and the
  parent and level maps are stated in those lemmas, which the table names,
  rather than as postconditions of the functions.
- `LabGraph` and `LabDepthFirst` hold the program's own `GRAPH` and prove
  the results of both searches from A to F:
  - BFS returns the path A, B, G, F with level 3 for F, plus the 'Start' row
    and one row each for A, B, D, C, E, G and H.
  - DFS returns the path A, B, E, H, F with level 4 for F, plus the 'Start'
    row and one row each for A, B, C, E and H.

The frontier column of a trace row is modelled exactly as the code builds it:

- In BFS it is the queue just after the dequeue, followed by the sorted queue
  after the new successors are appended. A node that was already waiting
  therefore appears twice.
- In DFS it is the stack reversed, top first.

The visited column is a set. Record numbers run 1, 2, … with no gap, and the
'Start' row is number 0.

## Model

| member | source | states |
|---|---|---|
| Graphs.Succ | sd23061_lab1.py:51 | a node missing from the dictionary has no successors; a present one has exactly its listed successors |
| Sequences.SortSorts | sd23061_lab1.py:51 | `Sort`, the model of `sorted`, returns an ascending permutation of its input |
| Sequences.SortDescSorts | sd23061_lab1.py:117 | `SortDesc`, the model of `sorted(..., reverse=True)`, returns a descending permutation of its input |
| Sequences.SortedUnique | sd23061_lab1.py:51 | two ascending permutations of the same nodes are equal, so the tie-break order does not depend on how the sort is done |
| Sequences.Reverse | sd23061_lab1.py:135 | `[::-1]` keeps the length and puts the i-th node from the end at position i, so the frontier column lists the stack top first |
| Sequences.ReversePermutes | sd23061_lab1.py:135 | the reversed stack in the frontier column holds exactly the stack's nodes |
| Discovery.InitialStep | sd23061_lab1.py:34-40 | the row written before the loop (also lines 98-104) is step 0, labelled 'Start', at level 0, with the frontier [start] and the visited set {start} |
| Discovery.NewlyDiscovered | sd23061_lab1.py:56-61 | a node is appended to the frontier exactly when it is a scanned neighbour that was not yet visited |
| Discovery.NewlyDiscoveredDistinct | sd23061_lab1.py:56-61 | one scan appends no node twice, even when a successor is listed twice |
| Discovery.NewlyDiscoveredAppend | sd23061_lab1.py:56-61 | scanning two lists one after the other finds what the first finds, then what the second finds among the rest |
| Discovery.NothingNew | sd23061_lab1.py:56-61 | a scan over visited nodes appends nothing |
| Discovery.NewlyDiscoveredAscending | sd23061_lab1.py:51-61 | scanning an ascending list appends nodes in ascending order |
| Discovery.NewlyDiscoveredDescending | sd23061_lab1.py:117-127 | scanning a descending list pushes nodes in descending order |
| Discovery.Adopt | sd23061_lab1.py:59-60 | recording newly discovered nodes keeps every earlier `parent_map`/`level` entry and gives each new node the same value |
| Discovery.DiscoverOne | sd23061_lab1.py:57-61 | one pass of the `for neighbor` body updates the frontier, `visited`, `parent_map` and `level` so that they match a scan one neighbour longer |
| Discovery.Discover | sd23061_lab1.py:56-61 | the discovery loop (also lines 121-127) appends exactly the unvisited neighbours in scan order, adds all neighbours to `visited`, and gives each new node the current node as parent and its level plus one, leaving old entries untouched |
| Discovery.DiscoveryKeepsTree | sd23061_lab1.py:57-60 | discovering successors of a visited node keeps the parent/level tree: each new node is a successor of its parent, one level deeper |
| Discovery.LevelTreeWalk | sd23061_lab1.py:26-28 | every node in a level tree is reachable from the start by a walk of level+1 nodes |
| Discovery.LevelTreeStart | sd23061_lab1.py:28 | the start node has level 0 |
| Discovery.ReconstructPath | sd23061_lab1.py:72-79 | following `parent_map` from the goal and reversing gives a walk from the start to the goal of level[goal]+1 nodes, whose i-th node is at level i and whose nodes each have the previous node as parent |
| Discovery.ChainStep | sd23061_lab1.py:76-78 | each step of the reconstruction loop moves one parent link up, one level closer to the start |
| Discovery.ReversedChain | sd23061_lab1.py:79 | the reversed parent chain is a walk from the start to the goal along tree edges |
| Discovery.ParentChainUnique | sd23061_lab1.py:75-79 | two paths of the same length that end at the same node and both follow the same parent links are equal |
| Discovery.PathDetermined | sd23061_lab1.py:72-79 | two paths that both report the outcome for the same levels and both follow the same `parent_map` are equal, so the reconstruction (also lines 139-146) has one possible result |
| Discovery.ExhaustedSearch | sd23061_lab1.py:42 | when the frontier empties without the goal, every reachable node was discovered and the goal is unreachable, so the empty path is the right answer |
| Discovery.VisitedGrows | sd23061_lab1.py:69 | each row's visited copy contains the visited copies of all earlier rows |
| Discovery.ExpansionCount | sd23061_lab1.py:44 | a trace has at most one row more than there are discovered nodes, so no node is expanded twice |
| Discovery.FollowsRecordGrow | sd23061_lab1.py:64-70 | a row stays consistent with the level map as later discoveries add entries to it |
| BreadthFirst.BfsOrder | sd23061_lab1.py:24 | the queue order starts with the start node |
| BreadthFirst.BfsOrderDistinct | sd23061_lab1.py:56-61 | no node enters the queue twice |
| BreadthFirst.EnqueuedAscending | sd23061_lab1.py:51-61 | an expansion enqueues exactly the unvisited successors, each once, in ascending order |
| BreadthFirst.BfsPrefixOrder | sd23061_lab1.py:43 | the nodes expanded so far are the first nodes of the queue order, taken in turn |
| BreadthFirst.BfsPrefixQueue | sd23061_lab1.py:42-61 | the queue is the rest of the queue order after the expanded nodes, and `visited` is everything ever enqueued |
| BreadthFirst.BfsKeys | sd23061_lab1.py:25-28 | `BfsParents` and `BfsLevels`, the models of `parent_map` and `level`, have exactly the visited nodes as keys |
| BreadthFirst.BfsTree | sd23061_lab1.py:57-60 | in `BfsParents`/`BfsLevels` the start has no parent and level 0, and every other node is a successor of its parent, one level deeper |
| BreadthFirst.BfsLevelOrder | sd23061_lab1.py:42-61 | along the queue order levels never decrease, and none is more than one above the level of the queue's head |
| BreadthFirst.BfsClosed | sd23061_lab1.py:56-61 | every successor of an expanded node is visited |
| BreadthFirst.BfsShortest | sd23061_lab1.py:42-61 | every BFS level is at most the number of edges of any walk from the start, so it is the shortest distance |
| BreadthFirst.BfsQueueStep | sd23061_lab1.py:43-61 | the dequeued node is the next node of the queue order, and the queue after the scan is the rest of the extended queue order |
| BreadthFirst.BfsShortestStep | sd23061_lab1.py:57-60 | one expansion keeps the levels shortest |
| BreadthFirst.BfsSteps | sd23061_lab1.py:34-70 | `process_steps` after a run of expansions has one row per expansion plus the 'Start' row, which comes first |
| BreadthFirst.BfsFrontierColumn | sd23061_lab1.py:43-70 | the frontier column of row k, in the run that expanded k nodes and in every longer run, is the queue after the k-th `popleft` followed by the sorted queue after that expansion's appends, so a node already waiting appears twice |
| BreadthFirst.BfsTrace | sd23061_lab1.py:64-70 | the BFS rows are the 'Start' row then one consecutive row per expansion, each with its node, its level and a visited copy that adds that node's successors |
| BreadthFirst.BfsTraceLevels | sd23061_lab1.py:67 | the levels in the BFS rows never decrease |
| BreadthFirst.BfsResultTrace | sd23061_lab1.py:34-70 | the rows form a trace whose expanded nodes are exactly the expansions made |
| BreadthFirst.BfsResult | sd23061_lab1.py:72-81 | the returned levels form a shortest-level tree and the path is a shortest walk exactly when the goal is reachable; start equal to goal gives the path [start] with nothing expanded |
| BreadthFirst.BfsFound | sd23061_lab1.py:74 | when the goal is dequeued it is in `parent_map`, and the parent links form a tree |
| BreadthFirst.BfsStep | sd23061_lab1.py:43-70 | one non-goal iteration moves the queue, `visited`, `parent_map`, `level` and the rows from their values after the expansions so far to their values after one more, and strictly grows `visited` or shortens the queue |
| BreadthFirst.BfsIterationQueue | sd23061_lab1.py:43-61 | dequeuing the head and appending the new successors is the same as extending the queue order by one expansion |
| BreadthFirst.BfsExpand | sd23061_lab1.py:51-70 | the loop body after a non-goal dequeue keeps the loop invariant for one more expansion, and grows `visited` or shortens the queue |
| BreadthFirst.BfsLoop | sd23061_lab1.py:42-70 | the `while queue` loop ends with expansions that follow the queue order and maps and rows equal to their specification; it stops on the goal, or with the queue exhausted |
| BreadthFirst.BfsOutcome | sd23061_lab1.py:19-81 | for the run that expanded `us` and rebuilt `path` from the parent links: the levels are shortest and form a tree, the path is non-empty exactly when the goal is reachable and then follows `BfsParents` of the expansions the rows record, the rows are the BFS rows of exactly those expansions with non-decreasing levels, and start equal to goal gives [start] |
| BreadthFirst.BreadthFirstSearch | sd23061_lab1.py:19-81 | the result: levels form a tree of shortest distances; the path is a shortest walk start to goal exactly when the goal is reachable, else empty with the goal undiscovered; each path node after the first has the node before it as its `parent_map` entry, for the parent map of the expansions the rows record, which fixes the path; the rows are a consecutive trace of the BFS expansions with non-decreasing levels; start equal to goal gives [start], only the 'Start' row and level {start: 0} |
| DepthFirst.PushedDescending | sd23061_lab1.py:117-127 | an expansion pushes exactly the unvisited successors, each once, in descending order |
| DepthFirst.DfsPopsLeast | sd23061_lab1.py:114-127 | after an expansion that pushes something, the top of the stack is the smallest unvisited successor, and it heads the frontier column |
| DepthFirst.PopTop | sd23061_lab1.py:107 | `Pop`, the model of `stack.pop()` on a stack without repeats, removes the top node and keeps every other node |
| DepthFirst.DfsVisited | sd23061_lab1.py:90 | the start node is visited from the outset and stays visited after every expansion |
| DepthFirst.DfsPartition | sd23061_lab1.py:106-127 | for `DfsStack` and `DfsVisited`, the models of `stack` and `visited`: no node is popped twice or is on the stack twice, none is both popped and waiting, and `visited` is exactly the popped and waiting nodes |
| DepthFirst.DfsFirst | sd23061_lab1.py:89-107 | the first node popped is the start node |
| DepthFirst.DfsPrefixNext | sd23061_lab1.py:107 | each expanded node was on top of the stack when it was popped |
| DepthFirst.DfsKeys | sd23061_lab1.py:90-93 | `DfsParents` and `DfsLevels`, the models of `parent_map` and `level`, have exactly the visited nodes as keys |
| DepthFirst.DfsVisitedNodes | sd23061_lab1.py:121-127 | DFS only visits nodes the graph mentions: the start node, the dictionary keys and the listed successors |
| DepthFirst.DfsTree | sd23061_lab1.py:122-126 | in `DfsParents`/`DfsLevels` the start has no parent and level 0, and every other node is a successor of its parent, one level deeper |
| DepthFirst.DfsClosed | sd23061_lab1.py:121-127 | every successor of an expanded node is visited |
| DepthFirst.DfsTrace | sd23061_lab1.py:130-137 | `DfsSteps`, the DFS rows, are the 'Start' row then one consecutive row per expansion, each with its node, its level and a visited copy that adds that node's successors |
| DepthFirst.DfsExhausted | sd23061_lab1.py:106 | when the stack empties without the goal, the goal is unreachable and the empty path is right |
| DepthFirst.DfsResult | sd23061_lab1.py:139-148 | the returned levels form a tree; the path is a walk start to goal with the i-th node at level i exactly when the goal is reachable; start equal to goal gives [start] |
| DepthFirst.DfsResultRun | sd23061_lab1.py:98-137 | the rows form a trace of exactly the expansions made, and the run stopped on the goal or with the stack exhausted |
| DepthFirst.DfsFound | sd23061_lab1.py:141 | when the goal is popped it is in `parent_map`, and the parent links form a tree |
| DepthFirst.DfsIterationStack | sd23061_lab1.py:107-127 | popping the top and pushing the new successors is the same as extending the expansion sequence by one |
| DepthFirst.DfsStep | sd23061_lab1.py:107-137 | one non-goal iteration moves the stack, `visited`, `parent_map`, `level` and the rows to their values after one more expansion, and strictly grows `visited` or shortens the stack |
| DepthFirst.DfsExpand | sd23061_lab1.py:117-137 | the loop body after a non-goal pop keeps the loop invariant for one more expansion |
| DepthFirst.DfsLoop | sd23061_lab1.py:106-137 | the `while stack` loop ends with pops that follow the stack discipline and maps and rows equal to their specification; it stops on the goal, or with the stack exhausted |
| DepthFirst.DfsOutcome | sd23061_lab1.py:83-148 | for the run that popped `us` and rebuilt `path` from the parent links: the levels form a tree, the path is non-empty exactly when the goal is reachable and then follows `DfsParents` of the pops the rows record, the rows are the DFS rows of exactly those pops, and start equal to goal gives [start] |
| DepthFirst.DepthFirstSearch | sd23061_lab1.py:83-148 | the result: levels form a parent tree; the path is a walk start to goal along tree levels exactly when the goal is reachable, else empty with the goal undiscovered; each path node after the first has the node before it as its `parent_map` entry, for the parent map of the pops the rows record, which fixes the path; the rows are a consecutive trace of the DFS pops; start equal to goal gives [start], only the 'Start' row and level {start: 0} |
| LabGraph.LabShortWalks | sd23061_lab1.py:6-15 | in `GRAPH` every walk from A to F has at least three edges, and A, B, G, F is the only one with three |
| LabGraph.LabExpansions | sd23061_lab1.py:42-48 | on `GRAPH` from A, BFS dequeues F right after expanding A, B, D, C, E, G and H |
| LabGraph.LabPath | sd23061_lab1.py:72-79 | any shortest-level result for A to F on `GRAPH` has the path A, B, G, F with F at level 3 |
| BreadthFirst.DfsNotBelowBfs | sd23061_lab1.py:229-231 | a BFS level is never above the level the same node gets in any discovery tree, the DFS tree included |
| LabGraph.LabBreadthFirstSearch | sd23061_lab1.py:6-15 | `breadth_first_search(GRAPH, 'A', 'F')` returns A, B, G, F with level 3 for F, and 8 rows: 'Start', then A, B, D, C, E, G, H |
| LabDepthFirst.LabDfsExpansions | sd23061_lab1.py:106-112 | on `GRAPH` from A, DFS pops F right after expanding A, B, C, E and H |
| LabDepthFirst.LabDfsLevels | sd23061_lab1.py:122-126 | a DFS trace on `GRAPH` that expands A, B, C, E, H gives the levels A 0, B 1, D 1, C 2, E 2, G 2, H 3, F 4 |
| LabDepthFirst.LabDfsPath | sd23061_lab1.py:139-146 | with those levels, the only possible path from A to F is A, B, E, H, F |
| LabDepthFirst.LabDfsNotShortest | sd23061_lab1.py:229-231 | on `GRAPH` the DFS levels are not shortest distances: F is at level 4 but A, B, G, F reaches it in three edges |
| LabDepthFirst.LabDepthFirstSearch | sd23061_lab1.py:6-15 | `depth_first_search(GRAPH, 'A', 'F')` returns A, B, E, H, F with level 4 for F, and 6 rows: 'Start', then A, B, C, E, H |

## Left out

- `main()`, the Streamlit page and the pandas tables (lines 153 onward) are user interface and display only.
- Node names are single characters. `GRAPH` uses one-letter strings, and their Python ordering is the ordering of their characters. Multi-letter names are not modelled.
- `deque`, `list`, `set` and `dict` are modelled as Dafny `seq`, `set` and `map` values that the methods reassign. These containers are local to one call and never aliased, so in-place mutation adds nothing.
- Python's `sorted` is modelled as insertion sort. The sorted permutation is unique (`Sequences.SortedUnique`), so the algorithm does not matter.
- A trace row's dictionary is the datatype `TraceStep`. The column name 'Frontier (Queue)' or 'Frontier (Stack)' becomes the `FrontierKind` field. The 'Start' label becomes the `Start` constructor of the expansion column.
- The iteration order of the `visited` set and of the `level` dictionary, which only shows up in the display, is not modelled.
- `current_node` is an `Option` that is `None` before the first pop. The source reads it only after the loop, which always runs at least once.
- Discovery.ReconstructPath: requires the parent map to be a discovery tree that holds the goal. Both searches call it only after popping the goal, and they always meet this. On an arbitrary dictionary with a parent cycle, the source's loop would not stop.
- DepthFirst.DepthFirstSearch: claims no shortest-distance property for its levels. The source makes no such promise for DFS, and its levels are depths in the DFS tree.
