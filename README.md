# Verified model of pinglu85/algorithms-and-data-structures

A Dafny model of the JavaScript data structures and algorithms of the
repository, with proofs of what each one promises:

- **Linked containers**: the FIFO queue (`Queue.js`), the LIFO stack (`Stack.js`),
  the singly and doubly linked lists (`SinglyLinkedList.js`, `DoublyLinkedList.js`).
  Each is a class over heap nodes. A ghost spine of nodes and the sequence of values
  they hold describe the list, and every method states the new contents.
- **Binary search tree** (`BinarySearchTree.js`): the recursive helpers are functions
  on tree values. They are proved to keep the values with their multiplicities and
  the ordering, and to find minima, maxima and members.
- **Binary-heap priority queue** (`PriorityQueue.js`): a class over a sequence with
  sift-up and sift-down loops proved to restore heap order. The root is the least key.
- **Weighted directed graph** (`Graph.js`): a map from vertices to outgoing weights
  and incoming sets. The weights are any finite numbers, held as `real`. Every operation
  keeps the two indices in agreement.
- **Dijkstra's algorithm** (`dijkstrasAlgorithm.js`, on top of the priority queue and
  the graph). A non-empty result is a path from the source to the target, and no
  other path between them weighs less. An empty result means the target cannot be
  reached.
- **Two Knuth-Morris-Pratt searches** (`KMPsearch.js` in `searching-algorithms/` and in
  `searching_algorithms/`). The LPS table holds the longest proper borders, and the
  search returns exactly the positions where the pattern occurs.
- **Sorts**: insertion, merge, Lomuto quicksort, randomized quicksort and LSD radix
  sort, on integers. Each produces a sorted permutation of its input; radix sort's
  counting pass is proved stable. Radix sort is modelled only on non-negative integers,
  where the source sorts; on fractional numbers the source does not sort (see
  "## Left out").
- **Traversals**: breadth-first and depth-first search of adjacency-list graphs, both
  iterative and recursive. Each visits exactly the vertices reachable from the source,
  once each. The tree traversals are proved to be pre-, in-, post- and level order.
- **Sudoku backtracking solver** (`sudoku.js`), in place on a 9×9 array. With givens
  that repeat no digit, it succeeds exactly when a solution keeps them. It leaves
  the puzzle unchanged when it fails.

There is one Dafny module per JavaScript file, and each file is named after its module.
Two files that share a name, such as the two `KMPsearch.js` or the two
`breadthFirstSearch.js`, get distinct modules. Small shared
modules hold the node type (`LinkedNode`), the order predicates (`Sorting`), borders
and occurrences (`Kmp`), adjacency lists and reachability (`AdjacencyList`), sequence
helpers (`Sequences`) and `Option` (`Wrappers`).

## Model

| member | source | states |
|---|---|---|
| LinkedNode.Node.constructor | data-structures/Queue.js:1-6 | a node holds the value and the link it was given |
| LinkedNode.ChainTail | data-structures/SinglyLinkedList.js:73-74 | dropping the first node of a null-terminated chain leaves the chain of its successor, which does not contain the dropped node |
| LinkedNode.ChainEnd | data-structures/SinglyLinkedList.js:28-30 | in a chain only the last node has no successor, so walking to a null `next` stops at the tail |
| LinkedNode.ReversedChain | data-structures/SinglyLinkedList.js:168-175 | nodes whose links all point backwards, read from the last one, form the chain of the reversed nodes and values |
| Queue.Queue.constructor | data-structures/Queue.js:13-17 | a new queue is empty |
| Queue.Queue.Enqueue | data-structures/Queue.js:24-36 | the value goes to the back behind the old contents in a fresh node; the new length is returned |
| Queue.Queue.Dequeue | data-structures/Queue.js:42-57 | on an empty queue nothing (`null`) is returned and nothing changes; otherwise the front value is returned and the rest stays in order, the tail being cleared when the queue empties |
| Queue.Queue.IsEmpty | data-structures/Queue.js:63-65 | true exactly when the counter is 0, which for a well-formed queue means no elements |
| Queue.Queue.Length | data-structures/Queue.js:71-73 | the number of elements held |
| Stack.Stack.constructor | data-structures/Stack.js:12-15 | a new stack is empty |
| Stack.Stack.Push | data-structures/Stack.js:22-26 | the value goes on top of the old contents; the new length is returned |
| Stack.Stack.Pop | data-structures/Stack.js:32-42 | on an empty stack nothing (`null`) is returned and nothing changes; otherwise the top value is returned and the rest stays |
| Stack.Stack.Peek | data-structures/Stack.js:48-54 | the top value, or nothing on an empty stack, without a change |
| Stack.Stack.IsEmpty | data-structures/Stack.js:60-62 | true exactly when the stack holds no element |
| Stack.Stack.Length | data-structures/Stack.js:68-70 | the number of elements held |
| Stack.PushThenPop | data-structures/Stack.js:22-42 | last in, first out: a pop right after a push returns the pushed value and restores the old contents |
| SinglyLinkedList.SinglyLinkedList.constructor | data-structures/SinglyLinkedList.js:9-12 | a new list is empty |
| SinglyLinkedList.SinglyLinkedList.Push | data-structures/SinglyLinkedList.js:19-34 | walks to the last node and appends the value in a fresh node; returns the new length |
| SinglyLinkedList.SinglyLinkedList.Pop | data-structures/SinglyLinkedList.js:40-62 | on an empty list returns nothing; otherwise removes and returns the last value, the others staying in order |
| SinglyLinkedList.SinglyLinkedList.Shift | data-structures/SinglyLinkedList.js:68-77 | on an empty list returns nothing; otherwise removes and returns the first value |
| SinglyLinkedList.SinglyLinkedList.Unshift | data-structures/SinglyLinkedList.js:84-88 | puts the value in front of the old contents; returns the new length |
| SinglyLinkedList.SinglyLinkedList.Get | data-structures/SinglyLinkedList.js:95-98 | the value at an index inside the list, nothing for any other index (negative or too large) |
| SinglyLinkedList.SinglyLinkedList.Set | data-structures/SinglyLinkedList.js:107-115 | succeeds exactly for an index inside the list, and then replaces only that value; otherwise changes nothing |
| SinglyLinkedList.SinglyLinkedList.Insert | data-structures/SinglyLinkedList.js:123-136 | for an index from 0 to the length the value is put at that position and the new length returned; for any other index nothing (`null`) and no change |
| SinglyLinkedList.SinglyLinkedList.Remove | data-structures/SinglyLinkedList.js:143-157 | for an index inside the list the value there is removed and returned, the others staying in order; otherwise nothing and no change |
| SinglyLinkedList.SinglyLinkedList.Reverse | data-structures/SinglyLinkedList.js:163-177 | the nodes, and so the values, are in reverse order and the returned node is the new head |
| SinglyLinkedList.SinglyLinkedList.RecursiveReverse | data-structures/SinglyLinkedList.js:184-195 | the chain starting at the given node comes back reversed, starting at the returned node |
| SinglyLinkedList.SinglyLinkedList.RecursiveReverseList | data-structures/SinglyLinkedList.js:184-195 | called on the list itself, the returned node starts the reversed chain but `head` still names the old first node, now the last one |
| SinglyLinkedList.SinglyLinkedList.ReverseRecursively | data-structures/SinglyLinkedList.js:184-195 | the recursive reversal with `head` updated: contents and nodes reversed, the returned node is the head |
| SinglyLinkedList.SinglyLinkedList.TraverseNodes | data-structures/SinglyLinkedList.js:209-226 | the node at an index inside the list, `null` for a negative index or one past the end |
| DoublyLinkedList.Node.constructor | data-structures/DoublyLinkedList.js:3-9 | a node holds the value and the two links it was given |
| DoublyLinkedList.Position | data-structures/DoublyLinkedList.js:199-228 | where `#traverseNodes` stops: an index before the middle of `length` counts from the head, any other from the tail numbered `length - 1`; with an exact length that is the index itself for an index inside the list and nothing otherwise |
| DoublyLinkedList.DoublyLinkedList.constructor | data-structures/DoublyLinkedList.js:12-16 | a new list is empty with length 0 |
| DoublyLinkedList.DoublyLinkedList.Push | data-structures/DoublyLinkedList.js:23-35 | appends the value in a fresh tail node linked both ways; the length grows by one and is returned |
| DoublyLinkedList.DoublyLinkedList.Pop | data-structures/DoublyLinkedList.js:41-59 | on an empty list nothing; otherwise removes and returns the last value and lowers the length |
| DoublyLinkedList.DoublyLinkedList.Shift | data-structures/DoublyLinkedList.js:65-81 | on an empty list nothing; otherwise removes and returns the first value and lowers the length |
| DoublyLinkedList.DoublyLinkedList.Unshift | data-structures/DoublyLinkedList.js:88-97 | prepends the value in a fresh head node; the length grows by one and is returned |
| DoublyLinkedList.DoublyLinkedList.Get | data-structures/DoublyLinkedList.js:104-107 | the value at the position `#traverseNodes` reaches, or nothing; with an exact length, the value at the index |
| DoublyLinkedList.DoublyLinkedList.Set | data-structures/DoublyLinkedList.js:116-124 | succeeds exactly when `#traverseNodes` reaches a node, and then replaces only that value |
| DoublyLinkedList.DoublyLinkedList.Insert | data-structures/DoublyLinkedList.js:132-152 | index 0 prepends, index `length - 1` appends, any other index puts the value in front of the node reached, or fails with nothing changed |
| DoublyLinkedList.DoublyLinkedList.LinkBefore | data-structures/DoublyLinkedList.js:146-151 | links a new node in front of an interior node: the value lands at that position and the length grows by one |
| DoublyLinkedList.DoublyLinkedList.Remove | data-structures/DoublyLinkedList.js:159-180 | index 0 shifts, index `length - 1` pops, any other index unlinks the node reached and returns its value but leaves the length as it was; nothing when no node is reached |
| DoublyLinkedList.DoublyLinkedList.Unlink | data-structures/DoublyLinkedList.js:173-179 | unlinks an interior node: its value is returned, the others keep their order, the length is unchanged |
| DoublyLinkedList.DoublyLinkedList.InsertAt | data-structures/DoublyLinkedList.js:132-152 | corrected `insert`: every index from 0 to the length inserts at that position (the length itself appends); any other index fails; the length stays exact |
| DoublyLinkedList.DoublyLinkedList.RemoveAt | data-structures/DoublyLinkedList.js:159-180 | corrected `remove`: every index inside the list removes and returns that value and lowers the length; any other index fails |
| DoublyLinkedList.DoublyLinkedList.ToArray | data-structures/DoublyLinkedList.js:186-196 | the values from head to tail, in order |
| DoublyLinkedList.DoublyLinkedList.TraverseNodes | data-structures/DoublyLinkedList.js:199-228 | the node at the position `Position` gives, walking from the nearer end, or `null` |
| DoublyLinkedList.StaleLengthExample | data-structures/DoublyLinkedList.js:164-180 | after pushing 1, 2, 3, 4 and removing index 1 the length still says 4 and `get(2)` returns 3 |
| DoublyLinkedList.InsertNearEndExample | data-structures/DoublyLinkedList.js:137-144 | on 1, 2, 3 an insert at index 3 fails and an insert of 9 at index 2 appends it |
| DoublyLinkedList.RemoveAtExample | data-structures/DoublyLinkedList.js:159-180 | the corrected removal on 1, 2, 3, 4 leaves length 3 and `get(2)` returns 4 |
| DoublyLinkedList.InsertAtExample | data-structures/DoublyLinkedList.js:132-152 | the corrected insertion of 9 at index 2 of 1, 2, 3 gives 1, 2, 9, 3 |
| BinarySearchTree.InsertImpl | data-structures/BinarySearchTree.js:22-35 | the new value is added to the tree's values once, nothing else changing |
| BinarySearchTree.InsertBounds | data-structures/BinarySearchTree.js:22-35 | inserting a value within a lower or an upper bound of the tree keeps that bound |
| BinarySearchTree.InsertAbove | data-structures/BinarySearchTree.js:22-35 | inserting a value above a strict lower bound of the tree keeps that bound |
| BinarySearchTree.InsertKeepsOrder | data-structures/BinarySearchTree.js:27-32 | duplicates sent left keep the order "left at most, right strictly greater" at every node |
| BinarySearchTree.InsertKeepsWeakOrder | data-structures/BinarySearchTree.js:27-32 | insertion keeps the weaker order that lets a right subtree hold the node's value |
| BinarySearchTree.SearchImpl | data-structures/BinarySearchTree.js:46-60 | on any tree, even an unordered one, a hit means the tree holds the value |
| BinarySearchTree.SearchCorrect | data-structures/BinarySearchTree.js:46-60 | on any tree in order, even the weak one, the search finds a value exactly when the tree holds it |
| BinarySearchTree.GetMinValueNode | data-structures/BinarySearchTree.js:71-81 | the leftmost node: none exactly for an empty tree, otherwise a node without left child holding a value of the tree |
| BinarySearchTree.MinValueIsLeast | data-structures/BinarySearchTree.js:71-81 | in order, the leftmost value is at most every value of the tree |
| BinarySearchTree.GetMaxValueImpl | data-structures/BinarySearchTree.js:91-101 | the rightmost value: none exactly for an empty tree, otherwise a value of the tree |
| BinarySearchTree.MaxValueIsGreatest | data-structures/BinarySearchTree.js:91-101 | in order, the rightmost value is at least every value of the tree |
| BinarySearchTree.DeleteImpl | data-structures/BinarySearchTree.js:113-145 | on any tree, deletion removes at most one node and never adds one: the result has as many nodes as the tree or one fewer (which value goes is stated by DeleteRemovesOne) |
| BinarySearchTree.DeleteAbsent | data-structures/BinarySearchTree.js:113-124 | deleting a value the tree does not hold gives back the same tree |
| BinarySearchTree.DeleteBounds | data-structures/BinarySearchTree.js:113-145 | deletion keeps every lower and upper bound of the tree |
| BinarySearchTree.DeleteKeepsWeakOrder | data-structures/BinarySearchTree.js:113-145 | deletion with the in-order successor keeps the weak order |
| BinarySearchTree.DeleteRemovesOne | data-structures/BinarySearchTree.js:113-145 | on a tree in order, deletion removes exactly one occurrence of the value, or nothing when it is absent |
| BinarySearchTree.DeleteBreaksOrder | data-structures/BinarySearchTree.js:138-144 | after inserting 3, 1, 5, 5 the tree is in strict order, and deleting 3 breaks it |
| BinarySearchTree.DeleteImplPredecessor | data-structures/BinarySearchTree.js:113-145 | the corrected deletion takes the in-order predecessor in the two-child case; on any tree it removes at most one node and never adds one |
| BinarySearchTree.DeletePredecessorBounds | data-structures/BinarySearchTree.js:113-145 | the corrected deletion keeps every lower and upper bound |
| BinarySearchTree.DeletePredecessorAbove | data-structures/BinarySearchTree.js:113-145 | the corrected deletion keeps a strict lower bound |
| BinarySearchTree.DeletePredecessorKeepsOrder | data-structures/BinarySearchTree.js:113-145 | deletion with the in-order predecessor keeps the strict order |
| BinarySearchTree.DeletePredecessorRemovesOne | data-structures/BinarySearchTree.js:113-145 | the corrected deletion removes exactly one occurrence of the value |
| BinarySearchTree.DeletePredecessorExample | data-structures/BinarySearchTree.js:138-144 | on the tree of 3, 1, 5, 5 the corrected deletion of 3 moves 1 up and stays in order |
| BinarySearchTree.BinarySearchTree.constructor | data-structures/BinarySearchTree.js:10-12 | a new tree is empty |
| BinarySearchTree.BinarySearchTree.Insert | data-structures/BinarySearchTree.js:18-20 | the root becomes the tree with the value inserted: its values gain the value once and the strict order is kept |
| BinarySearchTree.BinarySearchTree.Search | data-structures/BinarySearchTree.js:42-44 | true exactly when the tree holds the value |
| BinarySearchTree.BinarySearchTree.GetMinValue | data-structures/BinarySearchTree.js:66-69 | none on an empty tree, otherwise the smallest value of the tree |
| BinarySearchTree.BinarySearchTree.GetMaxValue | data-structures/BinarySearchTree.js:87-89 | none on an empty tree, otherwise the largest value of the tree |
| BinarySearchTree.BinarySearchTree.Delete | data-structures/BinarySearchTree.js:108-111 | the root becomes the tree with one occurrence of the value removed, and is returned |
| BinarySearchTree.BinarySearchTree.DeleteKeepingOrder | data-structures/BinarySearchTree.js:108-111 | the corrected deletion: one occurrence removed and the strict order kept |
| PriorityQueue.Swapped | data-structures/PriorityQueue.js:111-113 | the two slots trade entries, every other slot keeps its entry, and the entries as a multiset are the same |
| PriorityQueue.AppendExceptUp | data-structures/PriorityQueue.js:14-15 | appending to a heap breaks heap order at most between the new last slot and its parent |
| PriorityQueue.SiftUpStep | data-structures/PriorityQueue.js:66-73 | swapping an entry that is smaller than its parent moves the one possible violation up to the parent's slot |
| PriorityQueue.SiftUpDone | data-structures/PriorityQueue.js:60-74 | when the slot is the root, or its entry is no smaller than its parent, the array is a heap |
| PriorityQueue.SiftDownStep | data-structures/PriorityQueue.js:104-107 | swapping an entry with its smaller, strictly smaller child moves the one possible violation down to that child's slot |
| PriorityQueue.SiftDownStepChildren | data-structures/PriorityQueue.js:104-107 | after that swap the slot's new entry, too, is no larger than the grandchildren below it |
| PriorityQueue.SiftDownDone | data-structures/PriorityQueue.js:77-108 | when no child is smaller than the slot's entry the array is a heap |
| PriorityQueue.DropRootExceptDown | data-structures/PriorityQueue.js:36-37 | moving the last entry to the root of a heap and dropping the old root breaks heap order only at the root |
| PriorityQueue.Swappable | data-structures/PriorityQueue.js:78-102 | the slot chosen is the parent or one of its children, holds the smallest of their keys, and is a child only when that child's key is strictly smaller; ties keep the left child |
| PriorityQueue.RootIsMinimal | data-structures/PriorityQueue.js:46-48 | in a heap the root has the smallest key |
| PriorityQueue.PriorityQueue.constructor | data-structures/PriorityQueue.js:5-8 | a new queue is empty |
| PriorityQueue.PriorityQueue.Insert | data-structures/PriorityQueue.js:14-23 | the heap gains exactly the new entry and stays in heap order |
| PriorityQueue.PriorityQueue.Pull | data-structures/PriorityQueue.js:29-40 | on an empty queue nothing; otherwise the old root is returned, an entry with the smallest key, and the heap loses exactly that entry and keeps heap order |
| PriorityQueue.PriorityQueue.Peek | data-structures/PriorityQueue.js:46-48 | the root, an entry with the smallest key, or nothing on an empty queue |
| PriorityQueue.PriorityQueue.Size | data-structures/PriorityQueue.js:54-56 | the number of entries |
| PriorityQueue.PriorityQueue.HeapifyUp | data-structures/PriorityQueue.js:59-74 | repairs the one violation at a slot and its parent: the result is a heap holding the same entries |
| PriorityQueue.PriorityQueue.HeapifyDown | data-structures/PriorityQueue.js:77-108 | repairs the one violation at a slot and its children: the result is a heap holding the same entries |
| PriorityQueue.PriorityQueue.Swap | data-structures/PriorityQueue.js:111-113 | the backing array with the two slots exchanged |
| Graph.ConsistentIsClosed | data-structures/Graph.js:50-59 | when the outgoing and incoming indices agree, every edge leads to a vertex of the graph |
| Graph.WithVertex | data-structures/Graph.js:10-16 | the vertex is added with no edges when absent; every existing vertex keeps its outgoing and incoming edges |
| Graph.WithVertexKeepsConsistent | data-structures/Graph.js:10-16 | adding a vertex keeps the two indices in agreement |
| Graph.Link | data-structures/Graph.js:54-57 | recording an edge keeps the vertex set |
| Graph.Unlink | data-structures/Graph.js:72-75 | deleting an edge keeps the vertex set |
| Graph.LinkKeepsConsistent | data-structures/Graph.js:54-57 | recording an edge keeps the indices in agreement; only `a.to` gains (or re-weights) `b` and only `b.from` gains `a` |
| Graph.AddEdgeEffect | data-structures/Graph.js:50-59 | adding the endpoints and then linking them keeps the graph consistent and changes exactly those two records |
| Graph.WithVerticesKeepEdges | data-structures/Graph.js:51-52 | adding the two endpoints leaves every edge as it was |
| Graph.UnlinkKeepsConsistent | data-structures/Graph.js:72-75 | deleting an edge keeps the indices in agreement; only `a.to` loses `b` and only `b.from` loses `a` |
| Graph.IncomingStep | data-structures/Graph.js:31-33 | removing the edge from one predecessor keeps the state of the first loop of `removeNode` and takes that predecessor out of `from` |
| Graph.IncomingDone | data-structures/Graph.js:31-35 | once no predecessor is left the second loop can start |
| Graph.OutgoingStep | data-structures/Graph.js:35-37 | removing the edge to one successor keeps the state of the second loop and takes that successor out of `to` |
| Graph.OutgoingDone | data-structures/Graph.js:35-39 | once no successor is left, deleting the vertex leaves a consistent graph in which every other vertex lost exactly its edges to and from it |
| Graph.Graph.constructor | data-structures/Graph.js:2-4 | a new graph has no vertices |
| Graph.Graph.AddNode | data-structures/Graph.js:10-16 | the graph with the vertex added; a vertex already present keeps its edges |
| Graph.Graph.AddEdge | data-structures/Graph.js:50-59 | for any weight, negative or fractional included (default 1), both endpoints become vertices, `a.to` maps `b` to the weight, `b.from` gains `a`, and no other record changes |
| Graph.Graph.RemoveEdge | data-structures/Graph.js:67-77 | deletes the edge from both indices when both endpoints are vertices; otherwise nothing changes |
| Graph.Graph.RemoveNode | data-structures/Graph.js:23-41 | an absent vertex changes nothing; otherwise the vertex is gone and every other vertex loses exactly its edges to and from it |
| Graph.Graph.RemoveIncomingEdges | data-structures/Graph.js:31-33 | the first loop: every edge into the vertex is removed from both indices |
| Graph.Graph.RemoveOutgoingEdges | data-structures/Graph.js:35-37 | the second loop: every edge out of the vertex is removed from both indices |
| Dijkstra.PrefixIsPath | algorithms/pathfinding-algorithms/dijkstrasAlgorithm.js:55 | a path less its last vertex is a path, and the full path weighs that prefix plus its last edge |
| Dijkstra.Crossing | algorithms/pathfinding-algorithms/dijkstrasAlgorithm.js:35-66 | any path from the source to an unsettled vertex passes an unsettled vertex already reached at a distance no greater than the path's weight |
| Dijkstra.SettleFacts | algorithms/pathfinding-algorithms/dijkstrasAlgorithm.js:36-46 | the smallest entry pulled for an unsettled vertex carries its recorded distance, and no path to that vertex is lighter |
| Dijkstra.DropSettledEntry | algorithms/pathfinding-algorithms/dijkstrasAlgorithm.js:42-44 | skipping the entry of a settled vertex keeps the queue invariant |
| Dijkstra.SkipNeighbor | algorithms/pathfinding-algorithms/dijkstrasAlgorithm.js:51-53 | a neighbour already settled, or one the new distance does not improve, is passed over and the loop state kept |
| Dijkstra.RelaxNeighbor | algorithms/pathfinding-algorithms/dijkstrasAlgorithm.js:55-64 | a strictly shorter distance is recorded with `node` as parent and queued, and the loop state kept |
| Dijkstra.ExpandKeepsShape | algorithms/pathfinding-algorithms/dijkstrasAlgorithm.js:46-65 | after relaxing, every record with a parent still names an edge from the parent whose weight makes up the distance |
| Dijkstra.ExpandKeepsOrder | algorithms/pathfinding-algorithms/dijkstrasAlgorithm.js:46-65 | after relaxing, every parent was settled before its child |
| Dijkstra.ExpandKeepsRelaxed | algorithms/pathfinding-algorithms/dijkstrasAlgorithm.js:50-65 | after relaxing, settled records are unchanged and every edge out of a settled vertex is relaxed |
| Dijkstra.ExpandKeepsSettled | algorithms/pathfinding-algorithms/dijkstrasAlgorithm.js:46-65 | settling a vertex at its shortest distance and relaxing its edges keeps the settled invariant |
| Dijkstra.ExpandKeepsDistances | algorithms/pathfinding-algorithms/dijkstrasAlgorithm.js:46-65 | every settled vertex, the new one included, keeps its shortest distance |
| Dijkstra.ExpandKeepsFrontier | algorithms/pathfinding-algorithms/dijkstrasAlgorithm.js:63 | every queued entry names a reached vertex with a key no smaller than its recorded distance, and every reached unsettled vertex has its entry |
| Dijkstra.PathStaysIn | algorithms/pathfinding-algorithms/dijkstrasAlgorithm.js:35-66 | a path that starts in a set no edge leaves ends in it |
| Dijkstra.ExhaustedIsClosed | algorithms/pathfinding-algorithms/dijkstrasAlgorithm.js:35 | when the queue is empty no edge leaves the settled vertices |
| Dijkstra.NoPathLeft | algorithms/pathfinding-algorithms/dijkstrasAlgorithm.js:68 | a target outside such a set, holding the source, is not reachable |
| Dijkstra.ChainWeight | algorithms/pathfinding-algorithms/dijkstrasAlgorithm.js:72-83 | the chain of parents from the source is a path that weighs exactly the distance recorded for its end |
| Dijkstra.ResultIsShortestPath | algorithms/pathfinding-algorithms/dijkstrasAlgorithm.js:38-40 | the path rebuilt for a target settled at its shortest distance is a path from the source that no other path undercuts |
| Dijkstra.InitialInvariant | algorithms/pathfinding-algorithms/dijkstrasAlgorithm.js:17-33 | the initial records and the queue holding only the source at 0 satisfy the loop invariant |
| Dijkstra.QueuedKey | algorithms/pathfinding-algorithms/dijkstrasAlgorithm.js:63 | every queued key is a distance, never negative |
| Dijkstra.StaleEntry | algorithms/pathfinding-algorithms/dijkstrasAlgorithm.js:42-44 | dropping the entry of a settled vertex keeps the loop invariant |
| Dijkstra.FoundTarget | algorithms/pathfinding-algorithms/dijkstrasAlgorithm.js:36-40 | when the smallest entry names the target its key is the target's shortest distance, and the parent links lead back strictly down a rank |
| Dijkstra.ReturnedPath | algorithms/pathfinding-algorithms/dijkstrasAlgorithm.js:38-40 | the rebuilt path is not empty, runs from the source to the target and is a shortest one |
| Dijkstra.SettleStart | algorithms/pathfinding-algorithms/dijkstrasAlgorithm.js:36-46 | the pulled entry of an unsettled vertex carries its shortest distance, the first one settled is the source, and fewer vertices remain |
| Dijkstra.SettleFinish | algorithms/pathfinding-algorithms/dijkstrasAlgorithm.js:46-65 | settling and relaxing re-establishes the loop invariant |
| Dijkstra.ExpandNeighbors | algorithms/pathfinding-algorithms/dijkstrasAlgorithm.js:50-65 | every record is unchanged or improved through `node` with `node` as parent; every unsettled neighbour ends no farther than through `node`; the queue only gains an entry for each improved record |
| Dijkstra.ConstructPath | algorithms/pathfinding-algorithms/dijkstrasAlgorithm.js:72-83 | the parent chain read back from the target, reversed: it ends at the target, starts at a vertex without a parent, and each vertex is its successor's parent |
| Dijkstra.Settle | algorithms/pathfinding-algorithms/dijkstrasAlgorithm.js:46-65 | marks the vertex visited and relaxes its edges, keeping the loop invariant with one vertex fewer left |
| Dijkstra.InitialInfo | algorithms/pathfinding-algorithms/dijkstrasAlgorithm.js:19-22 | one record per vertex: the source at distance 0, every other at infinity, none with a parent |
| Dijkstra.DijkstrasAlgorithm | algorithms/pathfinding-algorithms/dijkstrasAlgorithm.js:16-69 | the result is empty exactly when the target is unreachable; otherwise it is a path from the source to the target that no other path undercuts; the source alone when it is the target |
| Kmp.LpsEntry | algorithms/searching-algorithms/KMPsearch.js:139-151 | each entry of a correct table is the length of the longest proper border of its prefix |
| Kmp.LpsBounds | algorithms/searching-algorithms/KMPsearch.js:151 | a correct table starts with 0 and an entry never exceeds its index |
| Kmp.LpsAppend | algorithms/searching-algorithms/KMPsearch.js:253 | appending the correct next entry keeps the table correct |
| Kmp.MatchedAt | algorithms/searching-algorithms/KMPsearch.js:107 | a partial match of length `k` ending at `e` is the character-by-character equality of `txt[e-k..e)` with `pat[0..k)` |
| Kmp.OccurrencesExact | algorithms/searching-algorithms/KMPsearch.js:88-127 | the reference result lists exactly the starts of the occurrences of the pattern, increasing |
| Kmp.BorderStep | algorithms/searching-algorithms/KMPsearch.js:251-254 | a border of the prefix one longer is a border one shorter extended by an equal character |
| Kmp.MatchStep | algorithms/searching-algorithms/KMPsearch.js:107-110 | a partial match one longer is a partial match one shorter extended by an equal character |
| Kmp.MatchBorder | algorithms/searching-algorithms/KMPsearch.js:117 | of two partial matches ending at the same place, the shorter is a border of the longer |
| Kmp.BorderMatch | algorithms/searching-algorithms/KMPsearch.js:120 | a border of a partial match is itself a partial match |
| Kmp.LpsExtend | algorithms/searching-algorithms/KMPsearch.js:251-254 | when `pat[i]` equals `pat[len]` the entry for `pat[0..i]` is `len + 1` |
| Kmp.LpsZero | algorithms/searching-algorithms/KMPsearch.js:267-270 | when only the empty border is left and `pat[i]` differs from `pat[0]`, the entry is 0 |
| Kmp.LpsFallback | algorithms/searching-algorithms/KMPsearch.js:261-263 | falling back to `lps[len - 1]` shortens the candidate and skips no border |
| Kmp.SearchStart | algorithms/searching-algorithms/KMPsearch.js:100-102 | the search starts in its invariant with nothing found |
| Kmp.AdvanceKeeps | algorithms/searching-algorithms/KMPsearch.js:107-116 | a matched character extends the partial match; a whole match adds its start `i - j` to the occurrences |
| Kmp.FoundKeeps | algorithms/searching-algorithms/KMPsearch.js:115-117 | after a whole match, carrying on from `lps[j - 1]` skips no occurrence |
| Kmp.FallbackKeeps | algorithms/searching-algorithms/KMPsearch.js:118-120 | after a mismatch with `j > 0`, falling back to `lps[j - 1]` skips no occurrence |
| Kmp.SkipKeeps | algorithms/searching-algorithms/KMPsearch.js:121-123 | after a mismatch with nothing matched, moving on skips no occurrence |
| Kmp.DriverOccurrences | algorithms/searching-algorithms/KMPsearch.js:277-279 | 'AAAA' occurs in 'AAAAABAAABA' exactly at 0 and 1 |
| KmpIfElse.ComputeLpsArray | algorithms/searching-algorithms/KMPsearch.js:139-275 | the table has one entry per character, each the length of the longest proper border of its prefix; it starts with 0 |
| KmpIfElse.KmpSearch | algorithms/searching-algorithms/KMPsearch.js:88-127 | 'Pattern not found.' exactly when the pattern does not occur (a pattern longer than the text included); otherwise every occurrence start, each once, increasing |
| KmpIfElse.DriverExample | algorithms/searching-algorithms/KMPsearch.js:277-279 | the example returns the positions 0 and 1 |
| KmpInnerWhile.ComputeLpsArray | algorithms/searching_algorithms/KMPsearch.js:136-190 | the table has one entry per character, each the length of the longest proper border of its prefix; it starts with 0 |
| KmpInnerWhile.KmpSearch | algorithms/searching_algorithms/KMPsearch.js:88-123 | 'Pattern not found.' exactly when the pattern does not occur; otherwise every occurrence start `i + 1 - patLen`, each once, increasing |
| KmpInnerWhile.DriverExample | algorithms/searching_algorithms/KMPsearch.js:192-194 | the example returns the positions 0 and 1 |
| Sorting.SortedUnique | algorithms/sorting_algorithms/mergeSort.js:40-48 | two sorted sequences with the same elements are equal, so a sorted permutation of the input is the only possible result of any of the sorts |
| Sorting.SortedHead | algorithms/sorting_algorithms/mergeSort.js:13 | the front of a sorted sequence is at most every element of it, which is why comparing the two fronts picks the least element left |
| Sorting.SortedJoin | algorithms/sorting_algorithms/quickSort.js:32-34 | a sorted part below the pivot, the pivot and a sorted part at least the pivot form a sorted range |
| Sorting.BelowPermutation | algorithms/sorting_algorithms/quickSort.js:33 | rearranging the part left of the pivot keeps all of it below the pivot |
| Sorting.AtLeastPermutation | algorithms/sorting_algorithms/quickSort.js:34 | rearranging the part right of the pivot keeps all of it at least the pivot |
| InsertionSort.InsertionSort | algorithms/sorting_algorithms/insertionSort.js:1-13 | the array ends up in non-decreasing order and holds the same multiset of elements as before |
| InsertionSort.InsertCurrent | algorithms/sorting_algorithms/insertionSort.js:3-10 | with `arr[..i]` sorted, moving `arr[i]` back past every larger element makes `arr[..i+1]` sorted, keeps the elements, and leaves the array equal to the reference rearrangement `Inserted` at the insertion point |
| InsertionSort.ShiftStep | algorithms/sorting_algorithms/insertionSort.js:6-9 | copying a larger `arr[j]` one slot right moves the hole one place left and keeps every other element where the shifting state says |
| InsertionSort.ShiftDone | algorithms/sorting_algorithms/insertionSort.js:10 | when the shifting loop stops, writing `currentVal` into the hole gives `s[i]` moved to its insertion point: sorted up to `i`, with the same elements |
| InsertionSort.InsertedSorted | algorithms/sorting_algorithms/insertionSort.js:6-10 | moving `s[i]` in front of the larger elements at the end of a sorted prefix leaves the prefix up to `i` sorted |
| InsertionSort.InsertedElements | algorithms/sorting_algorithms/insertionSort.js:7-10 | moving one element to an earlier position keeps the multiset of elements |
| InsertionSort.Example | algorithms/sorting_algorithms/insertionSort.js:15-16 | sorting `[34, 8, 22, 10, 19, 17]` gives `[8, 10, 17, 19, 22, 34]` |
| InsertionSort.ExampleSorted | algorithms/sorting_algorithms/insertionSort.js:15-16 | the example's result is sorted and a permutation of its input |
| MergeSort.MergedElements | algorithms/sorting_algorithms/mergeSort.js:7-33 | the merge contains exactly the elements of both inputs, with their multiplicities |
| MergeSort.MergedFront | algorithms/sorting_algorithms/mergeSort.js:12-30 | a merge of inputs that are not both empty is not empty and starts with the front of one of them |
| MergeSort.MergedSorted | algorithms/sorting_algorithms/mergeSort.js:7-33 | merging two sorted arrays gives a sorted array |
| MergeSort.Merge | algorithms/sorting_algorithms/mergeSort.js:7-33 | the three loops push exactly the reference merge `Merged` of the two inputs, which the lemmas above show is sorted and holds both inputs' elements |
| MergeSort.MergedFromIsMerged | algorithms/sorting_algorithms/mergeSort.js:12-30 | merging from positions `i` and `j` is the merge of the two remaining suffixes |
| MergeSort.TakeFirst | algorithms/sorting_algorithms/mergeSort.js:13-15 | pushing `arr1[i]` when it is the smaller front, or when `arr2` is used up, keeps `mergedArr` a prefix of the merge |
| MergeSort.TakeSecond | algorithms/sorting_algorithms/mergeSort.js:16-19 | pushing `arr2[j]` when `arr1[i]` is not smaller, or when `arr1` is used up, keeps `mergedArr` a prefix of the merge |
| MergeSort.MergingDone | algorithms/sorting_algorithms/mergeSort.js:32 | once both inputs are used up, `mergedArr` is the whole merge |
| MergeSort.MergeSort | algorithms/sorting_algorithms/mergeSort.js:40-48 | the result is sorted and a permutation of the input; an input of length at most one comes back unchanged |
| MergeSort.Example | algorithms/sorting_algorithms/mergeSort.js:50-51 | sorting `[19, 1, 4, 0, 33, 20]` gives `[0, 1, 4, 19, 20, 33]` |
| MergeSort.ExampleSorted | algorithms/sorting_algorithms/mergeSort.js:50-51 | the example's result is sorted and a permutation of its input |
| QuickSort.Partition | algorithms/sorting_algorithms/quickSort.js:8-19 | the returned index holds the old `arr[hi]`, every element before it in `[lo, hi]` is smaller, every one after it is at least as large, only `arr[lo..hi]` is rearranged and its elements are kept |
| QuickSort.Exchange | algorithms/sorting_algorithms/quickSort.js:14 | the destructuring swap exchanges the two entries, keeps every other entry and keeps the elements |
| QuickSort.PermutedOfFrame | algorithms/sorting_algorithms/quickSort.js:11-17 | a rearrangement of the whole array that keeps every entry outside `[lo, hi]` is a rearrangement of `arr[lo..hi]` alone |
| QuickSort.QuickSortInPlace | algorithms/sorting_algorithms/quickSort.js:27-35 | `arr[lo..hi]` ends up sorted with the same elements, nothing outside it changes, and a range of at most one element is left alone |
| QuickSort.SortedAroundPivot | algorithms/sorting_algorithms/quickSort.js:32-34 | partitioning, then sorting the part left of the pivot, then the part right of it, sorts the whole range and only rearranges it |
| QuickSort.PermutedTrans3 | algorithms/sorting_algorithms/quickSort.js:32-34 | rearranging `[lo, hi]`, then the part left of the pivot, then the part right of it, is a rearrangement of `[lo, hi]` |
| QuickSort.PermutedTrans | algorithms/sorting_algorithms/quickSort.js:32-34 | two rearrangements of the same range make a rearrangement of that range |
| QuickSort.PermutedWiden | algorithms/sorting_algorithms/quickSort.js:33-34 | a rearrangement of part of a range is a rearrangement of the range |
| QuickSort.QuickSort | algorithms/sorting_algorithms/quickSort.js:43-47 | returns a new array, sorted and a permutation of the input |
| RandomizedQuickSort.RandomizedPartition | algorithms/sorting_algorithms/randomizedQuickSort.js:29-33 | whatever index in `[lo, hi]` is drawn, the returned index holds the element drawn, the range is partitioned around it, and only `arr[lo..hi]` is rearranged |
| RandomizedQuickSort.QuickSortInPlace | algorithms/sorting_algorithms/randomizedQuickSort.js:41-49 | for every choice of pivots, `arr[lo..hi]` ends up sorted with the same elements and nothing outside it changes |
| RandomizedQuickSort.QuickSort | algorithms/sorting_algorithms/randomizedQuickSort.js:57-61 | returns a new array, sorted and a permutation of the input |
| RadixSort.Digit | algorithms/sorting-algorithms/radixSort.js:32-33 | the digit of an element at `place` is one of 0 to 9, so it always indexes the ten counters |
| RadixSort.CountSortedElements | algorithms/sorting-algorithms/radixSort.js:21-62 | a counting sort keeps the length and the multiset of elements |
| RadixSort.CountSortedByDigit | algorithms/sorting-algorithms/radixSort.js:50-55 | after a counting sort the digits at `place` never decrease from left to right |
| RadixSort.CountSortedRefines | algorithms/sorting-algorithms/radixSort.js:50-55 | stability: on an array ordered by the digits below `place`, a counting sort at `place` leaves it ordered by the digits up to and including `place` |
| RadixSort.CountSortedAt | algorithms/sorting-algorithms/radixSort.js:53 | each position of the counting sort's output holds an element of the input: element `k`, in input order, of the bucket of its digit, at the offset where that bucket starts plus `k` |
| RadixSort.FilterKeepsOrder | algorithms/sorting-algorithms/radixSort.js:50-55 | picking the elements of one digit keeps their relative order |
| RadixSort.BucketsElements | algorithms/sorting-algorithms/radixSort.js:50-55 | the buckets laid out one after the other hold the elements of the input whose digit is below the bound |
| RadixSort.BucketAt | algorithms/sorting-algorithms/radixSort.js:45-47 | element `k` of bucket `d` sits at the number of smaller digits plus `k` |
| RadixSort.BucketOf | algorithms/sorting-algorithms/radixSort.js:53 | every output position lies in some bucket |
| RadixSort.BucketsDisjoint | algorithms/sorting-algorithms/radixSort.js:53 | no output position lies in two buckets, so no write overwrites another |
| RadixSort.ModSplit | algorithms/sorting-algorithms/radixSort.js:12 | for a non-negative number, the remainder modulo `10 * place` is its digit at `place` followed by its remainder modulo `place` |
| RadixSort.CountStep | algorithms/sorting-algorithms/radixSort.js:31-35 | `count[index]++` keeps every counter equal to the number of elements seen so far with that digit |
| RadixSort.CumulateStep | algorithms/sorting-algorithms/radixSort.js:45-47 | `count[i] += count[i - 1]` turns counter `i` into the number of elements with digit at most `i` |
| RadixSort.FillStep | algorithms/sorting-algorithms/radixSort.js:50-55 | writing `arr[i]` at `count[index] - 1` stays within the output and puts it in the last free slot of its bucket |
| RadixSort.FillDone | algorithms/sorting-algorithms/radixSort.js:50-55 | after the backward loop the output is exactly the stable counting sort `CountSorted` |
| RadixSort.CountingSort | algorithms/sorting-algorithms/radixSort.js:21-62 | the array becomes the stable grouping of its elements by the digit at `place`, which the lemmas above show is ordered by digit, stable and a permutation |
| RadixSort.CountDigits | algorithms/sorting-algorithms/radixSort.js:31-35 | `count[d]` becomes the number of elements whose digit at `place` is `d` |
| RadixSort.Accumulate | algorithms/sorting-algorithms/radixSort.js:45-47 | `count[d]` becomes the number of elements whose digit at `place` is at most `d` |
| RadixSort.PlaceByDigit | algorithms/sorting-algorithms/radixSort.js:50-55 | the output array becomes the stable counting sort of the input |
| RadixSort.Max | algorithms/sorting-algorithms/radixSort.js:6 | the maximum bounds every element and is one of them; an empty array gives a value below every digit count |
| RadixSort.RadixSort | algorithms/sorting-algorithms/radixSort.js:5-14 | the array ends up sorted with the same elements, after one counting sort per decimal digit of the maximum |
| RadixSort.RadixPass | algorithms/sorting-algorithms/radixSort.js:10-13 | a pass keeps elements non-negative and at most the maximum, and uses up one decimal digit of the maximum |
| RadixSort.RadixDone | algorithms/sorting-algorithms/radixSort.js:10 | once `place` exceeds the maximum, an array ordered by the digits below `place` is sorted |
| AdjacencyList.ReachableStep | algorithms/graph-traversal/breadthFirstSearch.js:24-28 | a neighbour of a reachable vertex is reachable, so everything a traversal enqueues is reachable from the source |
| AdjacencyList.ReachableThrough | algorithms/graph-traversal/depthFirstSearch.js:47-51 | a vertex reachable from a neighbour of `u` is reachable from `u` |
| AdjacencyList.ClosedContainsReachable | algorithms/graph-traversal/breadthFirstSearch.js:20-31 | a set of vertices that contains the source and all neighbours of its members contains every vertex reachable from the source |
| AdjacencyList.Add | algorithms/graph-traversal/breadthFirstSearch.js:22 | `visited.add(x)` on an insertion-ordered set: afterwards `x` is a member, nothing else is new, a member already there changes nothing, and a new member goes last with no duplicates |
| AdjacencyList.UnvisitedShrinks | algorithms/graph-traversal/breadthFirstSearch.js:21-22 | visiting a vertex not visited yet leaves strictly fewer unvisited vertices, which bounds the number of fresh visits |
| AdjacencyList.UnvisitedMonotone | algorithms/graph-traversal/depthFirstSearch.js:47-51 | a larger visited set leaves no more vertices unvisited |
| AdjacencyList.FirstUnvisitedAppend | algorithms/graph-traversal/breadthFirstSearch.js:26-30 | appending entries not visited yet to the queue leaves the stale entries in front of it as they were, so the traversal's measure goes down on a stale dequeue |
| AdjacencyList.FirstUnvisitedPrepend | algorithms/graph-traversal/depthFirstSearch.js:25-29 | pushing entries not visited yet onto the stack does not add stale entries in front |
| AdjacencyList.UnseenMembers | algorithms/graph-traversal/breadthFirstSearch.js:26-30 | the neighbours handed to the queue or the stack are exactly the neighbours not visited yet |
| AdjacencyList.UnseenSnoc | algorithms/graph-traversal/breadthFirstSearch.js:26-30 | looking at one more neighbour adds it at the end exactly when it is not visited |
| AdjacencyList.TraversalStep | algorithms/graph-traversal/breadthFirstSearch.js:20-31 | one iteration, whatever order the container keeps, preserves the traversal invariant: everything visited or pending is reachable, and every neighbour of a visited vertex is visited or pending |
| AdjacencyList.TraversalDone | algorithms/graph-traversal/breadthFirstSearch.js:20-33 | once nothing is pending, the visited vertices start with the source and are exactly the vertices reachable from it |
| GraphBreadthFirstSearch.BreadthFirstSearch | algorithms/graph-traversal/breadthFirstSearch.js:10-34 | an empty graph gives `[]`; otherwise the result starts at the source, has no duplicates, and holds a vertex exactly when it is reachable from the source |
| GraphBreadthFirstSearch.VisitNext | algorithms/graph-traversal/breadthFirstSearch.js:20-31 | an iteration marks the front of the queue visited and replaces it with its neighbours not visited yet, at the back, in order |
| GraphBreadthFirstSearch.EnqueueUnvisited | algorithms/graph-traversal/breadthFirstSearch.js:26-30 | the queue gains, at its back and in order, the neighbours not visited |
| GraphDepthFirstSearch.DepthFirstSearch | algorithms/graph-traversal/depthFirstSearch.js:10-33 | an empty graph gives `[]`; otherwise the result starts at the source, has no duplicates, and holds a vertex exactly when it is reachable from the source |
| GraphDepthFirstSearch.VisitNext | algorithms/graph-traversal/depthFirstSearch.js:20-30 | an iteration marks the top of the stack visited and replaces it with its neighbours not visited yet, the last of them on top |
| GraphDepthFirstSearch.PushUnvisited | algorithms/graph-traversal/depthFirstSearch.js:25-29 | the stack gains, on top and in reverse order, the neighbours not visited |
| GraphDepthFirstSearch.PushedOnReversal | algorithms/graph-traversal/depthFirstSearch.js:27 | pushing `x` onto the reversal of `u` gives the reversal of `u` followed by `x` |
| GraphDepthFirstSearch.RecursiveDepthFirstSearch | algorithms/graph-traversal/depthFirstSearch.js:42-57 | the result starts at the source, has no duplicates, and holds a vertex exactly when it is reachable from the source |
| GraphDepthFirstSearch.RecursiveDfsImpl | algorithms/graph-traversal/depthFirstSearch.js:43-54 | `visited` is extended, never reordered, by `node` and then only vertices reachable from `node`, without duplicates; every neighbour of a vertex it added is in the result |
| GraphDepthFirstSearch.Extended | algorithms/graph-traversal/depthFirstSearch.js:47-51 | extending the visited list through a neighbour keeps earlier members and adds only vertices reachable from the node itself |
| TreeDepthFirstSearch.RecursiveDfsPreOrder | algorithms/tree-traversal/depthFirstSearch.js:7-17 | appends to `visited` the reference pre-order of the tree, which lists every value exactly once with the root first |
| TreeDepthFirstSearch.RecursiveDfsPostOrder | algorithms/tree-traversal/depthFirstSearch.js:28-38 | appends to `visited` the reference post-order of the tree, which lists every value exactly once with the root last |
| TreeDepthFirstSearch.RecursiveDfsInOrder | algorithms/tree-traversal/depthFirstSearch.js:49-59 | appends to `visited` the reference in-order of the tree, which lists every value exactly once and is sorted for a search tree |
| TreeDepthFirstSearch.DepthFirstSearchPreOrder | algorithms/tree-traversal/depthFirstSearch.js:6-20 | the result is the pre-order, starts with the root's value when there is a root, and holds exactly the tree's values; no tree gives `[]` |
| TreeDepthFirstSearch.DepthFirstSearchPostOrder | algorithms/tree-traversal/depthFirstSearch.js:27-41 | the result is the post-order, ends with the root's value when there is a root, and holds exactly the tree's values; no tree gives `[]` |
| TreeDepthFirstSearch.DepthFirstSearchInOrder | algorithms/tree-traversal/depthFirstSearch.js:48-62 | the result is the in-order and holds exactly the tree's values; for a tree ordered like a binary search tree it is sorted |
| TreeDepthFirstSearch.PreOrderElements | algorithms/tree-traversal/depthFirstSearch.js:12-14 | the pre-order lists every value of the tree exactly once |
| TreeDepthFirstSearch.InOrderElements | algorithms/tree-traversal/depthFirstSearch.js:54-56 | the in-order lists every value of the tree exactly once |
| TreeDepthFirstSearch.PostOrderElements | algorithms/tree-traversal/depthFirstSearch.js:33-35 | the post-order lists every value of the tree exactly once |
| TreeDepthFirstSearch.TraversalsPermuted | algorithms/tree-traversal/depthFirstSearch.js:6-62 | the three orders are permutations of one another |
| TreeDepthFirstSearch.InOrderSorted | algorithms/tree-traversal/depthFirstSearch.js:54-56 | the in-order of a tree with smaller values on the left and larger or equal ones on the right is non-decreasing |
| TreeDepthFirstSearch.OrderedInOrderSorted | algorithms/tree-traversal/depthFirstSearch.js:54-56 | the in-order of a strictly ordered tree, as the binary search tree builds it, is non-decreasing |
| TreeBreadthFirstSearch.BfsIsLevelOrder | algorithms/tree-traversal/breadthFirstSearch.js:14-25 | emptying the queue produces the reference level order: the roots of the forest, then the level below, and so on |
| TreeBreadthFirstSearch.BfsLevel | algorithms/tree-traversal/breadthFirstSearch.js:14-25 | a queue that starts with a whole level produces that level's roots, then continues with the rest and the next level behind it |
| TreeBreadthFirstSearch.BfsElements | algorithms/tree-traversal/breadthFirstSearch.js:14-25 | breadth-first order lists each value of the queued trees exactly once |
| TreeBreadthFirstSearch.BfsEmpty | algorithms/tree-traversal/breadthFirstSearch.js:14 | a queue holding no node produces nothing |
| TreeBreadthFirstSearch.LevelOrderByDepth | algorithms/tree-traversal/breadthFirstSearch.js:14-25 | the level order lists the values at depth 0, then those at depth 1, and so on, each depth left to right |
| TreeBreadthFirstSearch.TreeLevelOrder | algorithms/tree-traversal/breadthFirstSearch.js:14-25 | the level order of a tree is its values depth by depth, down to its height |
| TreeBreadthFirstSearch.BelowHeight | algorithms/tree-traversal/breadthFirstSearch.js:14-25 | a tree has no values at its height or deeper |
| TreeBreadthFirstSearch.LevelDown | algorithms/tree-traversal/breadthFirstSearch.js:18-24 | depth `d` of the children of a level is depth `d + 1` of that level |
| TreeBreadthFirstSearch.ChildrenElements | algorithms/tree-traversal/breadthFirstSearch.js:18-24 | a node's value together with its enqueued children's values are exactly the values of its subtree |
| TreeBreadthFirstSearch.ChildrenSize | algorithms/tree-traversal/breadthFirstSearch.js:18-24 | the enqueued children of a node hold one node fewer than its subtree, so the loop terminates |
| TreeBreadthFirstSearch.BreadthFirstSearch | algorithms/tree-traversal/breadthFirstSearch.js:8-28 | the result is the tree's values level by level, each level left to right; it starts with the root's value and holds every value exactly once |
| TreeBreadthFirstSearch.Dequeued | algorithms/tree-traversal/breadthFirstSearch.js:15-24 | taking the front node off the queue and putting its children at the back produces its value and then what the new queue produces, with fewer nodes queued |
| TreeBreadthFirstSearch.VisitNext | algorithms/tree-traversal/breadthFirstSearch.js:14-25 | an iteration appends the front node's value and replaces that node with its present children at the back of the queue |
| TreeBreadthFirstSearch.EnqueuePresent | algorithms/tree-traversal/breadthFirstSearch.js:18-24 | the queue gains the subtree only when it is not empty |
| Sudoku.Update | algorithms/backtracking/sudoku/sudoku.js:61-64 | writing one entry of a grid or a table changes that entry and no other |
| Sudoku.UpdateUndo | algorithms/backtracking/sudoku/sudoku.js:69-72 | writing back the old entry after a write restores the grid or table, which is what the undo after a failed recursion relies on |
| Sudoku.Written | algorithms/backtracking/sudoku/sudoku.js:61 | an array that agrees with a snapshot everywhere but at one cell is the snapshot updated at that cell |
| Sudoku.Unwritten | algorithms/backtracking/sudoku/sudoku.js:15-22 | an array that agrees with a snapshot everywhere is that snapshot |
| Sudoku.BoxIndex | algorithms/backtracking/sudoku/sudoku.js:19 | the box of a cell is one of 0 to 8 |
| Sudoku.BoxIndexFloor | algorithms/backtracking/sudoku/sudoku.js:19 | the box index is `Math.floor(row / 3) * 3 + Math.floor(col / 3)` |
| Sudoku.SameBox | algorithms/backtracking/sudoku/sudoku.js:19 | two cells have the same box index exactly when they lie in the same band of three rows and the same stack of three columns |
| Sudoku.SameTables | algorithms/backtracking/sudoku/sudoku.js:13-46 | two 9×10 tables that agree on every flag are equal |
| Sudoku.RowScanStep | algorithms/backtracking/sudoku/sudoku.js:24-30 | scanning a cell of the first pair of loops marks its digit in its row and its box, and changes nothing for an empty cell |
| Sudoku.ZeroScanStep | algorithms/backtracking/sudoku/sudoku.js:28-30 | scanning a cell adds one to the count exactly when the cell is empty |
| Sudoku.ColumnScanStep | algorithms/backtracking/sudoku/sudoku.js:41-44 | scanning a cell of the second pair of loops marks its digit in its column, and changes nothing for an empty cell |
| Sudoku.CellPosition | algorithms/backtracking/sudoku/sudoku.js:13-14 | position `9 * row + col` of a scan is that cell and no other |
| Sudoku.ScanDone | algorithms/backtracking/sudoku/sudoku.js:13-46 | after both scans the tables say exactly which digits each row, column and box holds, and the zeros counted are the empty cells |
| Sudoku.Placed | algorithms/backtracking/sudoku/sudoku.js:60-65 | placing an allowed digit at an empty cell and marking it in its three tables keeps the tables exact and removes that cell from the empty ones |
| Sudoku.PlacedRows | algorithms/backtracking/sudoku/sudoku.js:61-62 | the placement puts the digit in its row and changes no other row's digits |
| Sudoku.PlacedColumns | algorithms/backtracking/sudoku/sudoku.js:61-63 | the placement puts the digit in its column and changes no other column's digits |
| Sudoku.PlacedBoxes | algorithms/backtracking/sudoku/sudoku.js:61-64 | the placement puts the digit in its box and changes no other box's digits |
| Sudoku.OtherBox | algorithms/backtracking/sudoku/sudoku.js:61-64 | for any other box or other digit, whether the box holds the digit is unchanged by the placement |
| Sudoku.KeptCell | algorithms/backtracking/sudoku/sudoku.js:61 | after filling an empty cell, any cell holding a value other than the new one held it before |
| Sudoku.PlacedConsistent | algorithms/backtracking/sudoku/sudoku.js:60-61 | placing at an empty cell a digit that its row, column and box lack keeps a grid free of repeated digits |
| Sudoku.PlacedNoClash | algorithms/backtracking/sudoku/sudoku.js:60-61 | after such a placement no filled cell repeats the digit of a peer |
| Sudoku.Blocked | algorithms/backtracking/sudoku/sudoku.js:60 | a digit that a table marks for the cell's row, column or box is in no solution at that cell, so skipping it loses nothing |
| Sudoku.Holder | algorithms/backtracking/sudoku/sudoku.js:60 | a marked digit is held by some peer of the cell |
| Sudoku.PlacedSolutions | algorithms/backtracking/sudoku/sudoku.js:67-73 | every solution of the grid after a placement is a solution of the grid before it, and no solution after the placement means no solution with that digit at that cell |
| Sudoku.SucceededPlaced | algorithms/backtracking/sudoku/sudoku.js:74-76 | a success after a placement is a success for the grid before it |
| Sudoku.NoDigitFits | algorithms/backtracking/sudoku/sudoku.js:79 | when no digit at an empty cell is in a solution, the grid has no solution, which justifies `return false` |
| Sudoku.Filled | algorithms/backtracking/sudoku/sudoku.js:50-52 | a grid of digits with no empty cell is complete |
| Sudoku.Solve | algorithms/backtracking/sudoku/sudoku.js:1-83 | on success the grid is complete and keeps every given, and a solution when the givens do not repeat a digit; on failure it is unchanged and there is no solution; with consistent givens it succeeds exactly when a solution exists; a puzzle without empty cells comes back as it was |
| Sudoku.Initialize | algorithms/backtracking/sudoku/sudoku.js:9-48 | new tables that say exactly which digits each row, column and box holds, and the number of empty cells |
| Sudoku.ScanRows | algorithms/backtracking/sudoku/sudoku.js:13-32 | the row and box tables become the digits of each row and box, and the count becomes the number of empty cells |
| Sudoku.ScanRow | algorithms/backtracking/sudoku/sudoku.js:14-31 | one row of the scan marks that row's cells and counts its empty ones |
| Sudoku.ScanCell | algorithms/backtracking/sudoku/sudoku.js:15-30 | one cell of the scan marks its digit in its row and its box, or counts it when empty |
| Sudoku.ScanColumns | algorithms/backtracking/sudoku/sudoku.js:35-46 | the column table becomes the digits of each column |
| Sudoku.ScanColumn | algorithms/backtracking/sudoku/sudoku.js:36-45 | one column of the scan marks that column's digits |
| Sudoku.Search | algorithms/backtracking/sudoku/sudoku.js:50-82 | from exact tables: success leaves a complete grid that keeps every filled cell, stays consistent and is tracked by the tables; failure leaves grid and tables unchanged and means no solution; no empty cell means immediate success |
| Sudoku.TryDigits | algorithms/backtracking/sudoku/sudoku.js:58-79 | trying the digits 1 to 9 at the first empty cell succeeds as `Search` does, or restores everything and shows there is no solution |
| Sudoku.Attempt | algorithms/backtracking/sudoku/sudoku.js:60-77 | one digit: success is a success of the search; failure restores everything and shows no solution has that digit at that cell |
| Sudoku.PlaceAndSearch | algorithms/backtracking/sudoku/sudoku.js:61-76 | placing the digit, recursing and undoing on failure: success is a success of the search; failure restores grid and tables, and shows no solution has the digit there |
| Sudoku.SetCell | algorithms/backtracking/sudoku/sudoku.js:61-64 | sets the cell and the digit's flag in its row, column and box tables, and nothing else |

## Left out

- Console output: the demonstration calls at the end of the files, and `SinglyLinkedList.print`, are not modelled. They only log.
- The 8-element examples of `quickSort.js`, `randomizedQuickSort.js` and `radixSort.js` are left out. The prover could not discharge the multiset equality of two 8-element literals within the resource limit. The general theorems cover these inputs.
- `Math.random` in `randomizedPartition` is a nondeterministic choice of an index in `[lo, hi]`. Every property holds for every choice; the distribution is not modelled.
- JavaScript `Map`, `Set` and object iteration order, where the result does not depend on it, is an arbitrary choice. This covers the vertex order of Dijkstra's initialisation and the order in which `removeNode` deletes edges.
- Vertices are values of any type with equality, not JavaScript property keys. The coercion of numeric keys to strings in adjacency-list objects is not modelled.
- Fluent `return this` results of `Graph` and `SinglyLinkedList` are not modelled. The methods change the receiver in place and return nothing. `addNode` returns `this` only when the node exists; that value is not modelled either.
- `Stack.js` has no `module.exports`, so the `require` in the graph depth-first search would not yield the class. The model uses the class as if it were exported.
- GraphBreadthFirstSearch.BreadthFirstSearch: proves the set of visited vertices (exactly the reachable ones, each once, the source first), not that they come in order of distance.
- GraphBreadthFirstSearch.BreadthFirstSearch, GraphDepthFirstSearch.DepthFirstSearch and GraphDepthFirstSearch.RecursiveDepthFirstSearch: require the source to be a vertex, the first two only when the graph is not empty. The iterative searches read `graph[node]` for the source first and iterate it, so a missing source makes `for (const neighbor of neighbors)` throw a `TypeError` (graph-traversal/breadthFirstSearch.js:24-26, graph-traversal/depthFirstSearch.js:24-25). The recursive one reads `graph[source]` unconditionally. That error path is not modelled.
- Traversals of graphs require every neighbour to be a vertex (`Closed`). The source would iterate over `undefined` otherwise.
- TreeBreadthFirstSearch.BreadthFirstSearch: requires a non-empty tree, because the source reads the value of the dequeued root unconditionally.
- Sudoku.Solve: requires every cell to hold 0 to 9. The lookup tables are 9×10 boolean arrays rather than objects of `1`/`0` flags.
- Sudoku.Solve: the `init`, `rows`, `columns`, `boxes` and `zeros` parameters are reached only through the top-level call and the recursion (`Search`).
- Sudoku.Solve: the JavaScript result (`puzzle`, `false`, or `undefined` after the loops) is a boolean, and the puzzle is filled in place. The final fall-through is proved unreachable: when `zeros > 0` an empty cell is always found.
- RadixSort.RadixSort: requires non-negative integers. On a negative element `Math.floor(x / place) % 10` is negative, and the counter array would be indexed out of range. On fractional numbers, which `@param {number[]}` admits, the source does not sort. For `[1.5, 1.2]` the maximum is 1.5, so one pass runs at place 1. Both digits there are 1, and the stable pass keeps the order. Then `Math.floor(1.5 / 10)` is 0, so the loop stops, leaving `[1.5, 1.2]`. For `[0.5, 0.2]` no pass runs at all. The sortedness guarantee therefore holds only for the integers the model takes.
- RadixSort.Max: stands for `-Infinity`, the maximum of an empty array, with -1. Either way no pass runs.
- KmpIfElse.KmpSearch and KmpInnerWhile.KmpSearch: require a non-empty pattern. With an empty pattern the source reads `lps[-1]`, and its result then depends on `undefined` comparisons.
- Dijkstra.DijkstrasAlgorithm and Dijkstra.ConstructPath: vertex ids are assumed truthy. The source's path walk `while (node)` (dijkstrasAlgorithm.js:76) also stops at a falsy id such as `0`, `''` or `false`. From source 0, the source returns `[1]` for target 1 and `[]` for target 0. The model stops only at a missing parent, so it returns `[0, 1]` and `[0]`. Its guarantees that a path starts at the source, and that an empty path means no path, do not hold in the source for falsy ids.
- Dijkstra.DijkstrasAlgorithm: edge weights are natural numbers (its records are `Adjacency<V, nat>`). Negative and fractional weights, which `Graph.Graph.AddEdge` stores, are excluded.
- Graph.Graph.AddEdge: a weight is any finite number, held as a `real`. `NaN` and `±Infinity`, which JavaScript would also store, are not modelled.
- InsertionSort.InsertionSort, MergeSort.MergeSort, QuickSort.QuickSort, RandomizedQuickSort.QuickSort and the BinarySearchTree operations: elements are integers. The source compares JavaScript numbers, and `NaN` makes every comparison false. `insertionSort([1, NaN, 0])` therefore returns the array unchanged and unsorted, and a `NaN` in a tree is found by no search. Floating-point values are not modelled: integers keep every comparison total, and the sortedness, permutation and search guarantees rely on that.
- KmpIfElse.KmpSearch and KmpInnerWhile.KmpSearch: text and pattern are `seq<char>`, sequences of Unicode scalar values. JavaScript indexes UTF-16 code units, so a character outside the Basic Multilingual Plane counts twice there. For text "😀A" and pattern "A" the source reports position 2, and the model reports 1. Lone surrogates cannot be represented at all. The positions agree for text in the Basic Multilingual Plane.
- Dijkstra.DijkstrasAlgorithm: requires the source to be a vertex and every edge to lead to a vertex.
- PriorityQueue: the comparator is fixed to the numeric key order used by Dijkstra's algorithm. Arbitrary comparators are not modelled.
- BinarySearchTree: the recursive helpers work on tree values. The class replaces the root rather than relinking nodes in place, so node aliasing is not modelled.
- DoublyLinkedList.DoublyLinkedList.Insert and DoublyLinkedList.DoublyLinkedList.Remove: exclude the indices that, once a middle removal has left `length` too large, would make the source dereference `null`.
- Queue, Stack, SinglyLinkedList and DoublyLinkedList: the length field is unbounded. JavaScript's numeric limits are not modelled.

## Findings

| source | as written | input that shows it | evidently intended | confidence | as-written member | corrected member |
|---|---|---|---|---|---|---|
| data-structures/BinarySearchTree.js:138-144 | deleting a node with two children moves the in-order successor up, but equal values are inserted to the left | insert 3, 1, 5, 5, then delete 3: the root becomes 5 with another 5 to its right | a deletion that keeps "greater values go right", taking the in-order predecessor | not executed | BinarySearchTree.DeleteBreaksOrder | BinarySearchTree.BinarySearchTree.DeleteKeepingOrder |
| data-structures/DoublyLinkedList.js:173-179 | removing a middle node does not decrease `length` | push 1, 2, 3, 4, then remove(1): length stays 4 and the tail-side walk of `get(2)` returns 3 | `length--` on every successful removal | not executed | DoublyLinkedList.StaleLengthExample | DoublyLinkedList.DoublyLinkedList.RemoveAt |
| data-structures/DoublyLinkedList.js:135-139 | `insert(length - 1, v)` appends after the tail and `insert(length, v)` fails, the reverse of the other list's `insert` | on 1, 2, 3: insert(2, 9) gives 1, 2, 3, 9 and insert(3, 9) fails | index `length` appends, index `length - 1` inserts before the tail | not executed | DoublyLinkedList.InsertNearEndExample | DoublyLinkedList.DoublyLinkedList.InsertAt |
| data-structures/SinglyLinkedList.js:184-195 | `recursiveReverse` relinks the nodes but never reassigns `head` | a list 1, 2, 3: afterwards `head` is the old first node, whose `next` is `null` | `head` set to the returned node, as `reverse` does | not executed | SinglyLinkedList.SinglyLinkedList.RecursiveReverseList | SinglyLinkedList.SinglyLinkedList.ReverseRecursively |
