# DSA Visualizer kernels in Dafny

This project models the algorithmic core of the `DSAVisualizer` class of a
browser page that animates classic data-structure and algorithm lessons
(`app.js`). The page has five panels, and each becomes one or more Dafny
modules:

- **Sorting** (`sorting.dfy`, module `Sorting`): the six in-place sorts,
  their dispatcher, and a reference sort.
  - The sorts are bubble, selection, insertion, merge (top-down, inclusive
    bounds), quick (Lomuto partition on the last element) and heap
    (max-heap, sift-down by recursion).
  - Each sort works on a `seq<int>` and returns the rearranged array.
  - `SortSpec` is the unique ascending permutation. `SortedUnique` shows
    that any two ascending permutations of one array are equal, so every
    algorithm computes exactly `SortSpec`.
- **Searching** (`searching.dfy`, module `Searching`):
  - a left-to-right linear scan;
  - a binary search with inclusive bounds and the midpoint rounded down;
  - the search button, which sorts the array ascending before a binary
    search.
- **Binary search tree** (`tree.dfy`, module `BinaryTree`):
  - the tree is an immutable `datatype`;
  - insertion below an existing node drops duplicates;
  - the add-node button and the fixed sample tree;
  - the three recursive traversals;
  - the queue-based level-order traversal;
  - the traversal dispatcher.
- **Linear structures** (`containers.dfy`, module `Containers`): the stack,
  queue and list panel. Each structure is a sequence with its front at
  index 0, and every operation changes only its own structure.
- **Pathfinding on the 25 x 25 grid**:
  - `grid.dfy`, module `Grid`: cells, bounds, the four-neighbourhood in
    the order up, down, left, right, the Manhattan heuristic, walks, and
    the walk back along a parent map.
  - `frontier.dfy`, module `Frontier`: the array-as-priority-queue that
    Dijkstra's algorithm and A* re-sort every round.
  - `bfs.dfy`, `dfs.dfy`, `dijkstra.dfy`, `astar.dfy`: the four searches
    from the start cell (5, 5) to the end cell (15, 15).
  - `pathfinding.dfy`: the dispatcher.

Each search method is proved to have these properties:
- It terminates.
- A path it returns is a walk over open cells from start to end.
- When it returns no path, no such walk exists.
- For breadth-first search, the path returned is a shortest walk.

Ghost state supplies the proofs:
- BFS keeps a discovery depth for each cell.
- DFS, Dijkstra and A* keep a rank that numbers cells in the order they
  were finished (visited or closed).

The rank is what shows that following parents always ends at the start,
even though DFS, Dijkstra and A* overwrite parents of cells not yet finished.

The page keys its grid maps by the text `row-col`. The model keys them by
the `Pos` datatype, since the text names each in-bounds cell uniquely.
JavaScript numbers are modelled as unbounded `int`. Values typed into the
inputs go through `parseInt` and are not bounded by the page, but no value
the page computes with comes near 2^53, where JavaScript numbers stop being
exact integers: indices stay below the array length and grid distances stay
at most 625.

## Model

| member | source | states |
|---|---|---|
| Sorting.BubbleSort | app.js:221-248 | the array returned is ascending and a permutation of the input |
| Sorting.SelectionSort | app.js:250-285 | the array returned is ascending and a permutation of the input |
| Sorting.InsertKey | app.js:293-316 | one outer step: with the prefix before `i` ascending, shifting larger values right and dropping the key in leaves the prefix through `i` ascending, keeps the multiset and does not touch cells after `i` |
| Sorting.ShiftStep | app.js:300-309 | one shift of a cell larger than the key one place right keeps the loop state: the prefix before the gap untouched, the shifted block one place right and above the key, and the multiset with the key in the gap equal to the input's |
| Sorting.ShiftDone | app.js:311 | when the shifting stops, putting the key in the gap orders the prefix through `i`, keeps the multiset and leaves the cells after `i` alone |
| Sorting.InsertionSort | app.js:287-318 | the array returned is ascending and a permutation of the input |
| Sorting.MergeHeads | app.js:335-352 | the two-run loop stops when either run is used up; what it wrote is in order, is made of exactly the consumed prefixes, and is no larger than either run's next value |
| Sorting.TakeLeft | app.js:341-343 | taking the left head on a tie or when smaller keeps the output in order, made of the consumed prefixes, and no higher than either next head |
| Sorting.TakeRight | app.js:344-346 | taking the right head when strictly smaller keeps the same loop state |
| Sorting.AppendRest | app.js:354-366 | copying out the rest of a run keeps the merged output in order |
| Sorting.MergeRuns | app.js:330-366 | merging two ascending runs gives an ascending sequence holding exactly the values of both |
| Sorting.Merge | app.js:329-367 | with `[left, mid]` and `[mid+1, right]` ascending, the range `[left, right]` becomes ascending, cells outside it are unchanged, and the array is a permutation of the input |
| Sorting.MergeSort | app.js:320-327 | the range `[left, right]` ends up ascending, cells outside it are unchanged, and the whole array is a permutation of the input |
| Sorting.Partition | app.js:377-405 | the pivot (the old last cell) lands at `pi` inside the range; everything before it in the range is smaller, everything after it is at least as large; cells outside the range are unchanged; permutation |
| Sorting.QuickSort | app.js:369-375 | the range `[low, high]` ends up ascending, cells outside it are unchanged, and the array is a permutation of the input |
| Sorting.QuickGlue | app.js:370-374 | after partitioning, sorting the part below the pivot and then the part above it orders the whole range and moves nothing outside it |
| Sorting.Heapify | app.js:438-461 | with the subtrees below `i` already max-heaps within the first `n` cells, the subtree at `i` becomes one: its root is the largest of `i` and its children, only descendants of `i` move, nothing beyond `n` moves, and the multiset is kept |
| Sorting.SiftChild | app.js:451-460 | when a child is larger, swapping it up and sifting on from it makes the subtree at `i` a heap with that child's old value at `i`, moving only cells of the subtree |
| Sorting.HeapAfterSift | app.js:455-459 | the heap order holds at every parent from `i` down once the swapped value has been sifted below the child |
| Sorting.HeapRootMax | app.js:407-411 | in a max-heap over the first `n` cells the root is at least every cell |
| Sorting.ExtractMax | app.js:414-430 | one extraction step: swapping the root to position `i` and re-heapifying the first `i` cells grows the sorted suffix by one cell, with every heap cell no larger than the suffix |
| Sorting.SwapRootOut | app.js:420 | swapping the root to position `i` leaves the cells before `i` a heap below the root, each no larger than the cells from `i` on, which are in order |
| Sorting.SiftKeepsTail | app.js:428 | re-heapifying the cells before `i` only permutes them, so the tail stays sorted and no front cell exceeds a tail cell |
| Sorting.HeapSort | app.js:407-436 | the array returned is ascending and a permutation of the input |
| Sorting.SortedUnique | app.js:197-204 | two ascending arrays with the same multiset are equal, so all six sorts give the same result |
| Sorting.IsSortSpec | app.js:606 | any ascending permutation of the array is the reference sort `SortSpec` |
| Sorting.AlgorithmNamed | app.js:197-204 | a selector value names an algorithm exactly when it is one of the six case labels |
| Sorting.SortWith | app.js:198-203 | each algorithm, with merge and quick called on the bounds `0` and `length - 1`, returns an ascending permutation of the array |
| Sorting.RunSort | app.js:183-219 | a listed selector value leaves the array equal to its ascending permutation; any other value leaves it unchanged |
| Searching.LinearSearch | app.js:615-635 | the result is the first index holding the target, and -1 exactly when the target is absent |
| Searching.BinarySearch | app.js:637-667 | on an ascending array every probed midpoint is in range; the result is -1 exactly when the target is absent; otherwise it holds the target and is the last probe |
| Searching.StartSearch | app.js:581-613 | `"linear"` scans the array as it is and finds the first occurrence; any other selector value first replaces the array by its ascending permutation; either way the result is -1 exactly when the target is absent, and otherwise indexes the target in the array as it stands afterwards |
| BinaryTree.Leaf | app.js:1605-1609 | a new node holds the value and has no children |
| BinaryTree.InsertNode | app.js:1139-1153 | the root node and its value stay; the value set gains exactly the inserted value |
| BinaryTree.InsertKeepsBST | app.js:1139-1153 | insertion keeps the search-tree order |
| BinaryTree.InsertPresent | app.js:1139-1153 | inserting a value already in a search tree leaves the tree unchanged |
| BinaryTree.InsertAbsent | app.js:1139-1153 | inserting a new value adds exactly one node holding it |
| BinaryTree.AddTreeNode | app.js:1130-1137 | the empty tree becomes a one-node tree; otherwise insertion happens; either way the result is non-empty, holds the old values plus the new one, keeps search order, and ignores duplicates |
| BinaryTree.InsertAll | app.js:1126 | inserting a list of values below a root keeps the root and adds exactly those values |
| BinaryTree.InsertAllKeepsBST | app.js:1123-1128 | inserting a list of values keeps the search-tree order |
| BinaryTree.GenerateSampleTree | app.js:1123-1128 | the sample tree is a search tree rooted at 50 holding exactly 50 and the ten listed values |
| BinaryTree.SampleInorder | app.js:1123-1128 | the in-order sequence of the sample tree is 10, 20, 25, 30, 35, 40, 45, 50, 60, 70, 80 |
| BinaryTree.Inorder | app.js:1283-1289 | lists every node once (the multiset of values), with the root right after its left subtree |
| BinaryTree.Preorder | app.js:1291-1297 | lists every node once, root first |
| BinaryTree.Postorder | app.js:1299-1305 | lists every node once, root last |
| BinaryTree.BSTIffInorderIncreasing | app.js:1283-1289 | a tree is a search tree exactly when its in-order sequence is strictly increasing |
| BinaryTree.InorderIsAscendingValues | app.js:1283-1289 | the in-order sequence of a search tree is its value set in ascending order |
| BinaryTree.DrainQueue | app.js:1312-1318 | the dequeue-visit-enqueue-children loop visits the queued subtrees in queue order, every node once |
| BinaryTree.QueueIsByLevels | app.js:1307-1319 | the queue order equals the level-by-level order, shallower levels first and left to right within a level |
| BinaryTree.LevelOrderTraversal | app.js:1307-1319 | a non-empty tree is listed level by level, root first, every node once; an empty tree gives nothing |
| BinaryTree.StartTreeTraversal | app.js:1250-1281 | each selector runs its own traversal: "inorder", "preorder" and "postorder" give that order, "levelorder" gives the level-by-level order (nothing for an empty tree); each lists every node once, an unlisted value lists nothing, and in-order on a search tree is strictly increasing |
| Containers.PushStack | app.js:1472-1475 | the value goes on top (the end); nothing below it and no other structure changes |
| Containers.PopStack | app.js:1477-1482 | a non-empty stack loses exactly its top; an empty panel is unchanged |
| Containers.ClearStack | app.js:1484-1487 | the stack is emptied and nothing else changes |
| Containers.Enqueue | app.js:1503-1506 | the value joins at the back; the rest of the queue and the other structures are unchanged |
| Containers.Dequeue | app.js:1508-1513 | a non-empty queue loses exactly its front; an empty panel is unchanged |
| Containers.ClearQueue | app.js:1515-1518 | the queue is emptied and nothing else changes |
| Containers.ClearLinkedList | app.js:1547-1550 | the list is emptied and nothing else changes |
| Containers.InsertLinkedList | app.js:1534-1537 | the value is appended at the tail; the rest of the list and the other structures are unchanged |
| Containers.DeleteAfterInsert | app.js:1534-1545 | deleting a value just appended to a list that did not hold it gives back the original panel |
| Containers.IndexOf | app.js:1540 | the first position holding the value, or -1 exactly when it is absent |
| Containers.DeleteLinkedList | app.js:1539-1545 | one copy of the value leaves the list; a value not in the list changes nothing; the stack and queue are untouched |
| Containers.DeleteIsRemoveFirst | app.js:1539-1545 | splicing at the found index equals walking the list and dropping the first match |
| Containers.DeleteRemovesOne | app.js:1539-1545 | deletion removes exactly one occurrence when present and leaves a list without the value alone |
| Containers.DeleteKeepsOrder | app.js:1539-1545 | the result is the list with one position cut out, at the first occurrence, so the remaining values keep their order |
| Containers.PopAfterPush | app.js:1472-1482 | popping right after a push restores the panel |
| Containers.LastInFirstOut | app.js:1472-1482 | after pushing a list of values, popping `k` removes the last `k` pushed |
| Containers.FirstInFirstOut | app.js:1503-1513 | after enqueueing a list of values, dequeueing `k` removes the `k` oldest |
| Containers.EnqueueDequeueCommute | app.js:1503-1513 | on a non-empty queue, joining at the back and leaving at the front commute |
| Grid.Heuristic | app.js:986-988 | the Manhattan distance is zero exactly for the same cell |
| Grid.HeuristicAdmissible | app.js:986-988 | the Manhattan distance between a walk's ends is at most its number of steps |
| Grid.HeuristicConsistent | app.js:986-988 | one step changes the Manhattan distance to any cell by at most one |
| Grid.GetNeighbors | app.js:990-1004 | at most four cells, each on the board and beside the cell; every on-board cell beside it is included; they come in the order up, down, left, right |
| Grid.NeighborsDistinct | app.js:990-1004 | no neighbour is listed twice |
| Grid.ReconstructPath | app.js:1006-1015 | following parents from the end and putting each cell in front gives a non-empty path ending at the end, starting at a cell with no parent, each cell the parent of the next; it ends because every link lowers the rank |
| Grid.ChainFromStart | app.js:1006-1015 | when every finished cell but the start has a parent and links join adjacent open cells, the rebuilt path is a walk from the start |
| Frontier.SortByKey | app.js:892 | the queue comes back in ascending key order with the same entries |
| Frontier.SortIsStable | app.js:892 | for every key the entries carrying it keep their relative order |
| Frontier.SortKeepsDistinct | app.js:943 | sorting keeps at most one entry per cell |
| Frontier.FrontIsLeast | app.js:892-893 | the entry taken from the front after sorting has the least key in the queue |
| Bfs.BreadthFirstSearch | app.js:797-832 | a path returned is a walk from start to end no longer than any other such walk; no path means no walk exists |
| Bfs.OpenBoardSearch | app.js:797-832 | on a board without walls the search from (5, 5) to (15, 15) finds a path of 21 cells, the Manhattan distance plus one |
| Bfs.Expand | app.js:812-830 | enqueuing the undiscovered open neighbours of the dequeued cell, one level deeper, keeps the breadth-first invariants, and either discovers a cell or shortens the queue |
| Bfs.VisitNeighbor | app.js:815-829 | an undiscovered open neighbour is marked visited, gets the dequeued cell as parent and depth one more than it, and joins the back of the queue; a discovered or walled neighbour changes nothing; the invariants hold and no recorded depth changes |
| Bfs.WalkDepth | app.js:804-831 | a walk from the start no longer than the queue head's depth ends at a discovered cell whose depth is at most its length |
| Bfs.EndDepthIsLeast | app.js:804-808 | when the end is dequeued, every walk from start to end has more cells than the end's depth |
| Bfs.RebuiltPath | app.js:806-808 | the path rebuilt from the end's parents is a walk from start to end with exactly depth + 1 cells |
| Bfs.NothingQueued | app.js:804 | once the queue is empty the discovered region is closed and lacks the end, so no walk reaches it |
| Dfs.DepthFirstSearch | app.js:834-871 | a path returned is a walk from start to end; no path means no walk exists |
| Dfs.PopVisited | app.js:840-843 | popping a cell already visited and skipping it keeps every invariant |
| Dfs.PopNew | app.js:840-845 | popping a cell not yet visited: it is open and the start or has a parent, and the rest of the stack keeps the invariants once it counts as visited |
| Dfs.PushNeighbors | app.js:860-869 | after the reversed-neighbour loop, every open neighbour of the visited cell is visited or stacked, and the parent and stack invariants hold |
| Dfs.PushIfNew | app.js:863-868 | an unvisited open neighbour is pushed on top with the cell as parent; a visited or walled neighbour leaves stack and parents unchanged; nothing stacked is lost |
| Dijkstra.DijkstraSearch | app.js:873-928 | a path returned is a walk from start to end; no path means no walk exists |
| Dijkstra.Relax | app.js:912-926 | after the neighbour loop, every open neighbour of the visited cell is visited or has a distance, and every cell with a distance that is not yet visited has a queue entry |
| Dijkstra.RelaxOne | app.js:915-925 | an unvisited open neighbour whose distance through the current cell is strictly smaller than its recorded one (or that has none) takes that distance, the current cell as parent, and a new queue entry with that distance; in every other case distances, parents and queue are unchanged |
| AStar.AStarSearch | app.js:930-984 | a path returned is a walk from start to end; no path means no walk exists |
| AStar.Expand | app.js:962-982 | after the neighbour loop, every open neighbour of the closed cell is closed or scored, and every scored cell that is not closed has exactly one open-set entry |
| AStar.ScoreNeighbor | app.js:965-981 | a neighbour neither closed nor a wall whose g through the current cell is strictly smaller than its recorded one (or that has none) takes that g and the current cell as parent; it gains an open-set entry with f = g + h only when it has none, and an existing entry is kept with its old f; in every other case g, parents and open set are unchanged |
| Pathfinding.StartPathfinding | app.js:784-795 | the four case labels run their search, with that search's guarantee (shortest for `"bfs"`); any other value runs nothing |

## Left out

- Drawing, CSS classes, highlighting, `sleep` delays and the pause button
  are left out. They touch only the page, never the data.
- The `isRunning` guard of the sort button is left out, along with the
  button enabling and the `try`/`catch` around the sort. These concern
  overlapping clicks and error logging.
- The DOM lookups in the two searches are left out. The linear scan skips
  an index whose element is missing, and the binary search would never
  end on one. The model takes one element per index to exist.
- Tree traversals append a node's value only when the node's circle is on
  the page (app.js:1321-1327). The model takes every node to have its
  circle, so every visited node is listed.
- Random array generation, the search array generator and the maze
  generator are left out: they draw random numbers. Their one effect on
  the model, that the start and end cells are never walls, is part of
  `Grid.WellFormed`. Cell clicks leave those two cells alone as well.
- The tree layout (`calculateNodePositions`) and the SVG drawing are left
  out: they are presentation only.
- `clearTreeVisualization`, `clearPath` and `clearGrid` are left out:
  they reset the page.
- Reading the number inputs is left out: `parseInt`, the `isNaN` alerts
  and the speed slider. Each operation takes an integer argument instead.
- The selector elements are left out, along with their default values
  when an element is missing. Each dispatcher takes the selector's text.
- The search button's `Array.sort` with a numeric comparator is modelled
  by `Sorting.MergeSort`. `Sorting.IsSortSpec` shows that any ascending
  permutation is the same array, so the choice of sort does not matter.
- `Infinity` in Dijkstra's distance map is modelled as the cell having no
  entry in `distances`. Comparing a finite distance with `Infinity` is
  always true, and the model's test `n !in distances || d < distances[n]`
  gives the same answer.
- A*'s `fScore` map is not kept. It is written and read back immediately
  as the key of the entry pushed. The model computes that key, g plus the
  heuristic, directly.
- The start and end cells are the constants (5, 5) and (15, 15), which is
  what the grid set-up assigns. The grid size is the constant 25.
- Dijkstra.DijkstraSearch: does not state that the path returned is a
  shortest walk, only that it is a walk and that no path means no walk.
  The optimality argument, Dijkstra's invariant over re-sorted entries, is
  not part of this model.
- AStar.AStarSearch: does not state that the path returned is a shortest
  walk. An entry already in the open set keeps the f it was pushed with
  even when its g later improves, so an optimality argument would have to
  handle stale keys. The model keeps that behaviour, as the contract of
  AStar.ScoreNeighbor states, but proves only validity and completeness.
- Dfs.DepthFirstSearch: the page promises no particular path for
  depth-first search, so only validity and completeness are stated.
- Concurrency is left out. The page's handlers are `async` and could
  interleave if a second button were pressed mid-run. Each operation is
  modelled as running alone.
