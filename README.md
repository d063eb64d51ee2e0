# Restaurant order management: a Dafny model

This project models the logic of a restaurant front-of-house app. The app
has a hand-written container library and the order lifecycle built on top
of it:

- **Containers.** An array-backed queue and stack. A singly-, a doubly-
  and a circular doubly-linked list, all sharing one node class. An
  unbalanced binary search tree with a caller-supplied comparator. A
  31-bucket chained hash table. An undirected weighted graph with
  Dijkstra's shortest-path query.
- **Order lifecycle.** The app's shared state runs the lifecycle.
  - New orders wait in the pending queue.
  - Moving an order to the kitchen takes it out of the queue and appends
    it to the kitchen list.
  - Serving it moves it to the served list.
  - Every status change is pushed on an undo stack.
  - Waiters take orders in turn from a ring.
- **Pure UI logic.** The order form's cart bookkeeping, and the orders
  page's status filter, newest-first sort and allowed-next-status table.

Each container is a class:

- **Queue and stack.** A `seq` field stands for the array.
- **Linked lists.** Heap nodes, with a ghost `Nodes` sequence, a ghost
  `Contents` sequence, a `Repr` footprint and a `Valid()` predicate that
  ties the links to those sequences. The circular list's ghost `Cursor`
  is the position of its `current` node.
- **Hash table.** An `array` of buckets.
- **Binary tree.** A class holding a `Tree` datatype root.
- **Graph.** An adjacency `map` plus the vertices' insertion order, which
  is the order a JavaScript `Map` enumerates its keys.

Each operation is proved against functions on those abstract values. The
functions' laws are lemmas:

- FIFO and LIFO laws.
- Set-then-get, remove-then-get and get-all-lists-each-entry-once for the
  hash table.
- Insertion keeps the search-tree property, adds exactly the value, and
  places it after every equal value; the in-order listing is sorted; search
  is complete.
- Dijkstra's route is a path from start to end, its distance is the path's
  weight and is minimal over all paths, and "no route" means no path
  exists.

The app state `AppContext.AppState` owns the five containers its actions
drive: the pending-orders queue, the kitchen list, the served list, the
waiter ring and the change stack.
Its invariant says:

- the containers are sound and share no objects;
- every queued order is pending, every kitchen order in progress, and every
  served order served.

Every action keeps that invariant. Each action's contract gives its whole
effect on the orders, waiters, tables and containers.

Three behaviours of the code a reader might not expect, which the model
follows as written:

- **`dijkstra(s, s)`.** It returns the path `[s]` with distance Infinity,
  not 0, because `distances.get(end) || Infinity` turns 0 into Infinity
  (src/data-structures/Graph.ts:167).
- **Change records of the two move actions.** They carry a fixed previous
  status (`Pending`, `InProgress`). They do not carry the status `orders`
  holds at that moment. `AppContext.CancelMoveUndo` shows the consequence:
  an order cancelled while still queued becomes pending again when its
  move is undone.
- **The queue after `moveOrderToKitchen`.** The queue is not simply
  "popped": the orders ahead of the target are dequeued and enqueued
  again behind the rest.

Timestamps and ids (`new Date()`, `uuidv4()`) are parameters (`now`, `id`).
One action uses one `now` for every timestamp it writes.

## Model

| member | source | states |
|---|---|---|
| Sequences.FirstIndex | src/data-structures/LinkedList.ts:94-105 | the index of the first element equal to v, or the length when none is; v is in s exactly when the index is in range |
| Sequences.RemoveFirstFacts | src/data-structures/LinkedList.ts:48-80 | removing the first occurrence of v shortens by one exactly when v occurs, changes nothing otherwise, and removes exactly one v from the multiset |
| Sequences.RemoveFirst | src/data-structures/LinkedList.ts:48-80 | the contents after `remove(v)`: the sequence without its first occurrence of v, itself when v is absent; its laws are in `Sequences.RemoveFirstFacts` |
| Sequences.RemoveFirstDistinct | src/data-structures/Graph.ts:27-35 | on a duplicate-free sequence, removing v keeps it duplicate-free and keeps exactly the other elements |
| Queues.Queue.constructor | src/data-structures/Queue.ts:2-3 | a new queue is empty |
| Queues.Queue.Enqueue | src/data-structures/Queue.ts:5-7 | the item is appended at the back |
| Queues.Queue.Dequeue | src/data-structures/Queue.ts:9-14 | on an empty queue returns none and leaves it empty; otherwise returns the front element and removes only it |
| Queues.Queue.Peek | src/data-structures/Queue.ts:16-21 | none exactly when empty, otherwise the front element; the queue is unchanged |
| Queues.Queue.IsEmpty | src/data-structures/Queue.ts:23-25 | true exactly when the queue has no elements |
| Queues.Queue.Size | src/data-structures/Queue.ts:27-29 | the number of queued elements |
| Queues.Queue.GetAll | src/data-structures/Queue.ts:31-33 | the elements front to back |
| Queues.Queue.Clear | src/data-structures/Queue.ts:35-37 | the queue is empty afterwards |
| Queues.FifoLaw | src/data-structures/Queue.ts:5-14 | enqueuing e1..en on an empty queue and dequeuing n times yields e1..en and leaves the queue empty |
| Queues.TwoOrderTrace | src/data-structures/Queue.ts:5-33 | enqueue o1, enqueue o2, dequeue gives o1 and getAll then gives [o2] |
| Stacks.Stack.constructor | src/data-structures/Stack.ts:2-3 | a new stack is empty |
| Stacks.Stack.Push | src/data-structures/Stack.ts:5-7 | the item goes on top |
| Stacks.Stack.Pop | src/data-structures/Stack.ts:9-14 | on an empty stack returns none and changes nothing; otherwise returns the top element and removes only it |
| Stacks.Stack.Peek | src/data-structures/Stack.ts:16-21 | none exactly when empty, otherwise the top element; the stack is unchanged |
| Stacks.Stack.IsEmpty | src/data-structures/Stack.ts:23-25 | true exactly when the stack has no elements |
| Stacks.Stack.Size | src/data-structures/Stack.ts:27-29 | the number of stacked elements |
| Stacks.Stack.GetAll | src/data-structures/Stack.ts:31-33 | the elements bottom to top |
| Stacks.Stack.Clear | src/data-structures/Stack.ts:36-38 | the stack is empty afterwards |
| Stacks.Reversed | src/data-structures/Stack.ts:9-14 | the reversal has the same length as its input |
| Stacks.ReversedAt | src/data-structures/Stack.ts:9-14 | position k of the reversal is position n-1-k of the input |
| Stacks.ReversedSnoc | src/data-structures/Stack.ts:5-14 | reversing s + [x] puts x first, then the reversal of s |
| Stacks.LifoLaw | src/data-structures/Stack.ts:5-14 | pushing p1..pn and popping n times yields pn..p1 and leaves the stack empty |
| LinkedLists.Node.constructor | src/data-structures/LinkedList.ts:2-10 | a new node holds the value and has no neighbours |
| LinkedLists.LinkedList.constructor | src/data-structures/LinkedList.ts:13-16 | a new list is valid and empty |
| LinkedLists.LinkedList.Append | src/data-structures/LinkedList.ts:18-32 | contents become old ++ [v], size grows by one, and the tail is the new node, the last reachable one |
| LinkedLists.LinkedList.Prepend | src/data-structures/LinkedList.ts:34-46 | contents become [v] ++ old, size grows by one, and the tail moves only when the list was empty |
| LinkedLists.LinkedList.Remove | src/data-structures/LinkedList.ts:48-80 | returns true exactly when v was present; the first occurrence goes and the rest keep their order; size drops by one only then; an absent value changes nothing |
| LinkedLists.LinkedList.UnlinkHead | src/data-structures/LinkedList.ts:51-60 | the first node goes, with the tail cleared when it was the only one |
| LinkedLists.LinkedList.UnlinkAfter | src/data-structures/LinkedList.ts:68-77 | the node after position k goes, with the tail moving back when it was the tail |
| LinkedLists.LinkedList.Bypass | src/data-structures/LinkedList.ts:74 | pointing a node at its successor's successor leaves a chain that skips exactly that successor and still ends in null |
| LinkedLists.LinkedList.ToArray | src/data-structures/LinkedList.ts:82-92 | the contents from head to tail |
| LinkedLists.LinkedList.Find | src/data-structures/LinkedList.ts:94-105 | null exactly when the value is absent, otherwise the node at its first occurrence |
| LinkedLists.LinkedList.Clear | src/data-structures/LinkedList.ts:108-112 | the list is empty, size 0, no head and no tail |
| DoublyLinkedLists.DoublyLinkedList.constructor | src/data-structures/DoublyLinkedList.ts:6-9 | a new list is valid and empty |
| DoublyLinkedLists.DoublyLinkedList.Append | src/data-structures/DoublyLinkedList.ts:12-27 | contents become old ++ [v], size grows by one, and the back links stay mirrored |
| DoublyLinkedLists.DoublyLinkedList.Prepend | src/data-structures/DoublyLinkedList.ts:30-43 | contents become [v] ++ old and size grows by one |
| DoublyLinkedLists.DoublyLinkedList.Remove | src/data-structures/DoublyLinkedList.ts:46-86 | returns true exactly when v was present; only its first occurrence goes and the rest keep their order; an absent value changes nothing; removing the only element clears head and tail |
| DoublyLinkedLists.DoublyLinkedList.UnlinkHead | src/data-structures/DoublyLinkedList.ts:60-69 | the first node goes |
| DoublyLinkedLists.DoublyLinkedList.UnlinkTail | src/data-structures/DoublyLinkedList.ts:71-77 | the last node goes |
| DoublyLinkedLists.DoublyLinkedList.UnlinkMiddle | src/data-structures/DoublyLinkedList.ts:79-82 | an inner node goes and its neighbours are linked to each other both ways |
| DoublyLinkedLists.DoublyLinkedList.ToArray | src/data-structures/DoublyLinkedList.ts:89-99 | the contents from head to tail |
| DoublyLinkedLists.DoublyLinkedList.Find | src/data-structures/DoublyLinkedList.ts:102-113 | null exactly when the value is absent, otherwise the node at its first occurrence |
| DoublyLinkedLists.DoublyLinkedList.Clear | src/data-structures/DoublyLinkedList.ts:116-120 | the list is empty, size 0, no head and no tail |
| CircularLists.CursorAfterDrop | src/data-structures/CircularDoublyLinkedList.ts:70-73 | where the cursor position lands when a node is unlinked |
| CircularLists.AnchoredAfterDrop | src/data-structures/CircularDoublyLinkedList.ts:59-73 | after unlinking node k, head and current still name ring nodes when each is moved to the successor if it was the removed node |
| CircularLists.AppendKeeps | src/data-structures/CircularDoublyLinkedList.ts:22-29 | adding a fresh node keeps the nodes distinct, labelled by the contents and inside the footprint |
| CircularLists.DropKeeps | src/data-structures/CircularDoublyLinkedList.ts:59-63 | dropping node k keeps the nodes distinct, labelled by the remaining contents and inside the smaller footprint |
| CircularLists.CircularDoublyLinkedList.constructor | src/data-structures/CircularDoublyLinkedList.ts:6-9 | a new ring is valid and empty |
| CircularLists.CircularDoublyLinkedList.Add | src/data-structures/CircularDoublyLinkedList.ts:12-33 | contents become old ++ [v] and size grows by one; the first add makes a self-loop and puts current on it; later adds leave head and current where they were |
| CircularLists.CircularDoublyLinkedList.AddFirst | src/data-structures/CircularDoublyLinkedList.ts:15-20 | the node becomes head and current, pointing to itself both ways |
| CircularLists.CircularDoublyLinkedList.AddLast | src/data-structures/CircularDoublyLinkedList.ts:21-30 | the node is inserted just before head, closing the ring both ways |
| CircularLists.CircularDoublyLinkedList.SpliceIn | src/data-structures/CircularDoublyLinkedList.ts:23-29 | relinking the new node between the last node and head keeps the ring closed in both directions |
| CircularLists.CircularDoublyLinkedList.Remove | src/data-structures/CircularDoublyLinkedList.ts:36-78 | returns true exactly when v was present; the first occurrence counted from head goes; size drops by one; removing the only node clears head and current; a removed head or current moves to the successor; an absent value changes nothing |
| CircularLists.CircularDoublyLinkedList.Unlink | src/data-structures/CircularDoublyLinkedList.ts:58-73 | node k leaves a ring of two or more; head and current move to its successor if they named it |
| CircularLists.CircularDoublyLinkedList.Forget | src/data-structures/CircularDoublyLinkedList.ts:65-76 | the bookkeeping after unlinking node k: contents, nodes, size, head and current |
| CircularLists.CircularDoublyLinkedList.SpliceOut | src/data-structures/CircularDoublyLinkedList.ts:59-63 | linking the removed node's neighbours to each other keeps the ring closed in both directions |
| CircularLists.CircularDoublyLinkedList.Rotate | src/data-structures/CircularDoublyLinkedList.ts:81-86 | on an empty ring returns none and changes nothing; otherwise current moves one step on (wrapping) and its value is returned |
| CircularLists.CircularDoublyLinkedList.GetCurrentValue | src/data-structures/CircularDoublyLinkedList.ts:89-91 | the value under current, none exactly when the ring is empty |
| CircularLists.CircularDoublyLinkedList.ToArray | src/data-structures/CircularDoublyLinkedList.ts:94-106 | the contents once round from head, in insertion order |
| CircularLists.CircularDoublyLinkedList.IsEmpty | src/data-structures/CircularDoublyLinkedList.ts:109-111 | true exactly when the ring is empty |
| CircularLists.CircularDoublyLinkedList.GetSize | src/data-structures/CircularDoublyLinkedList.ts:114-116 | the number of values in the ring |
| CircularLists.Seed | src/data-structures/CircularDoublyLinkedList.ts:12-33 | after n adds on an empty ring, toArray gives the values in insertion order, size is n, and the first rotate gives the second value added (the only one when n = 1) |
| CircularLists.FullTurn | src/data-structures/CircularDoublyLinkedList.ts:81-86 | rotating size times brings current back to the node it started on and changes nothing else |
| HashTables.HashUpTo | src/data-structures/HashTable.ts:12-20 | the running hash always lies in [0, 31) |
| HashTables.HashIsWeightedSum | src/data-structures/HashTable.ts:12-20 | reducing modulo 31 at every step gives the position-weighted char-code sum modulo 31 |
| HashTables.HashOf | src/data-structures/HashTable.ts:12-20 | the bucket of a key: the position-weighted sum of its character codes modulo 31, which `HashTables.HashIsWeightedSum` proves equal to the stepwise reduction |
| HashTables.ModOfSum | src/data-structures/HashTable.ts:16 | reducing the running sum early does not change the remainder |
| HashTables.KeyIndex | src/data-structures/HashTable.ts:25-30 | the position of the key's entry in a bucket, or the bucket's length when absent |
| HashTables.FindIffHasKey | src/data-structures/HashTable.ts:35-45 | a bucket lookup finds a value exactly when the bucket has an entry with that key |
| HashTables.PutFacts | src/data-structures/HashTable.ts:22-33 | after setting k to v the bucket maps k to v, other keys keep their values, the entry count grows only for a new key, and keys stay unique |
| HashTables.Put | src/data-structures/HashTable.ts:22-33 | `set` on one chain: the first entry with the key is overwritten, otherwise one entry is appended; its laws are in `HashTables.PutFacts` and `HashTables.PutOther` |
| HashTables.PutOther | src/data-structures/HashTable.ts:22-33 | setting k does not change the lookup of another key |
| HashTables.KeyIndexUnique | src/data-structures/HashTable.ts:25-30 | the first entry with the key is the one the scan stops at |
| HashTables.DropFacts | src/data-structures/HashTable.ts:47-58 | after removing k the bucket has no k, other keys keep their values, the count drops only if k was there, and keys stay unique |
| HashTables.Drop | src/data-structures/HashTable.ts:47-58 | `remove` on one chain: the first entry with the key is spliced out; its laws are in `HashTables.DropFacts` and `HashTables.DropOther` |
| HashTables.DropOther | src/data-structures/HashTable.ts:47-58 | removing k does not change the lookup of another key |
| HashTables.DropShifts | src/data-structures/HashTable.ts:52 | splicing out entry i shifts the later entries one place down |
| HashTables.FlattenMember | src/data-structures/HashTable.ts:65-75 | an entry is listed exactly when some bucket holds it |
| HashTables.Flatten | src/data-structures/HashTable.ts:65-75 | the `getAll` listing: every chain laid end to end, first bucket first; its laws are in `HashTables.FlattenMember` and `HashTables.FlattenSize` |
| HashTables.FlattenSize | src/data-structures/HashTable.ts:65-75 | the listing has as many entries as all buckets together |
| HashTables.SetThenGet | src/data-structures/HashTable.ts:22-45 | after set(k, v), get(k) is v, every other key reads as before, and every entry stays in its own bucket |
| HashTables.RemoveThenGet | src/data-structures/HashTable.ts:35-58 | after remove(k), get(k) is none, every other key reads as before, and every entry stays in its own bucket |
| HashTables.SizeSumUpdate | src/data-structures/HashTable.ts:65-75 | replacing one bucket changes the total entry count by the difference of the bucket sizes |
| HashTables.EntryCounts | src/data-structures/HashTable.ts:25-32 | set of an existing key keeps the entry count, of a new key adds one; remove takes one away exactly when the key was present |
| HashTables.HashTable.constructor | src/data-structures/HashTable.ts:6-10 | a new table has 31 empty buckets |
| HashTables.HashTable.Hash | src/data-structures/HashTable.ts:12-20 | the loop computes the key's hash, which lies in [0, 31) and depends only on the key |
| HashTables.HashTable.IndexIn | src/data-structures/HashTable.ts:25-30 | the scan finds the key's entry in the bucket, or reports the bucket's length |
| HashTables.HashTable.Set | src/data-structures/HashTable.ts:22-33 | only bucket hash(k) changes: an existing entry's value is overwritten in place, otherwise one entry is appended; get(k) is then v and other keys are unchanged |
| HashTables.HashTable.Get | src/data-structures/HashTable.ts:35-45 | the value stored under the key, or none |
| HashTables.HashTable.Remove | src/data-structures/HashTable.ts:47-58 | returns true exactly when the key was present; the entry is spliced out of its bucket; get(k) is then none and other keys are unchanged |
| HashTables.HashTable.Has | src/data-structures/HashTable.ts:61-63 | true exactly when get finds a value |
| HashTables.HashTable.GetAll | src/data-structures/HashTable.ts:65-75 | the entries bucket by bucket, in chain order within each bucket |
| HashTables.ListedIffStored | src/data-structures/HashTable.ts:65-75 | (k, v) is listed by getAll exactly when get(k) is v |
| HashTables.ListedOnce | src/data-structures/HashTable.ts:65-75 | no key is listed twice |
| HashTables.ListedKeysDistinct | src/data-structures/HashTable.ts:65-75 | the induction over buckets behind ListedOnce |
| BinaryTrees.StrictThenWeak | src/data-structures/BinaryTree.ts:31-47 | under a total preorder, a < b and b <= c give a < c |
| BinaryTrees.InsertTree | src/data-structures/BinaryTree.ts:15-48 | inserting into an empty tree makes the value the root; the result is never empty |
| BinaryTrees.SearchTree | src/data-structures/BinaryTree.ts:54-74 | a node found compares 0 to the query and holds a stored value |
| BinaryTrees.InsertAddsValue | src/data-structures/BinaryTree.ts:15-48 | the multiset of the in-order listing gains exactly the inserted value |
| BinaryTrees.InsertKeepsBst | src/data-structures/BinaryTree.ts:31-47 | insertion keeps left subtrees < node and right subtrees >= node |
| BinaryTrees.InOrderSorted | src/data-structures/BinaryTree.ts:76-95 | the in-order listing of a search tree is non-decreasing under a total preorder |
| BinaryTrees.InsertPosition | src/data-structures/BinaryTree.ts:41-47 | the inserted value lands after every value comparing >= 0 to it and before every value comparing > 0, so equal values keep insertion order |
| BinaryTrees.PlaceLeft | src/data-structures/BinaryTree.ts:33-39 | the insertion position inside a left subtree is the insertion position in the whole listing |
| BinaryTrees.PlaceRight | src/data-structures/BinaryTree.ts:41-47 | the insertion position inside a right subtree is the insertion position in the whole listing |
| BinaryTrees.SearchComplete | src/data-structures/BinaryTree.ts:54-74 | search finds nothing exactly when no stored value compares 0 to the query |
| BinaryTrees.BinaryTree.constructor | src/data-structures/BinaryTree.ts:12-13 | a new tree is empty |
| BinaryTrees.BinaryTree.Insert | src/data-structures/BinaryTree.ts:15-24 | the first value becomes the root; the listing gains exactly the value; the search-tree property is kept |
| BinaryTrees.BinaryTree.InsertNode | src/data-structures/BinaryTree.ts:26-48 | the descent below a node inserts as InsertTree does |
| BinaryTrees.BinaryTree.Search | src/data-structures/BinaryTree.ts:50-52 | a node found compares 0 to the query and holds a stored value |
| BinaryTrees.BinaryTree.InOrderInto | src/data-structures/BinaryTree.ts:76-89 | the traversal appends the subtree's values left, node, right to the accumulator |
| BinaryTrees.InOrder | src/data-structures/BinaryTree.ts:80-89 | the values in the order the in-order traversal visits them, left subtree, node, right subtree; `BinaryTrees.InOrderSorted` proves it sorted for a search tree |
| BinaryTrees.BinaryTree.ToArray | src/data-structures/BinaryTree.ts:91-95 | the in-order listing of the tree |
| Graphs.LexLessIrreflexive | src/data-structures/Graph.ts:50 | no vertex id is less than itself |
| Graphs.LexLessTotal | src/data-structures/Graph.ts:50 | of two different ids exactly one is less |
| Graphs.WithVertexFacts | src/data-structures/Graph.ts:5-9 | adding a new vertex with no neighbours keeps the adjacency symmetric and the order in step with it |
| Graphs.EdgeSetKeeps | src/data-structures/Graph.ts:12-17 | setting a positive weight both ways keeps the graph invariant |
| Graphs.AddEdgeFrame | src/data-structures/Graph.ts:12-17 | after addEdge both directions carry w and every other entry is the old one |
| Graphs.WithoutEdgeEntries | src/data-structures/Graph.ts:22-25 | removing an edge deletes exactly the two directed entries |
| Graphs.WithoutEdge | src/data-structures/Graph.ts:22-25 | `removeEdge`'s result: each endpoint's map loses the other, a missing endpoint is skipped; its laws are in `Graphs.WithoutEdgeEntries` and `Graphs.WithoutEdgeFacts` |
| Graphs.WithoutEdgeFacts | src/data-structures/Graph.ts:22-25 | removing an edge keeps the graph invariant |
| Graphs.WithoutVertexFacts | src/data-structures/Graph.ts:27-35 | removing a vertex keeps the graph invariant, with the vertex dropped from the order |
| Graphs.WithoutVertex | src/data-structures/Graph.ts:27-35 | `removeVertex`'s result: the vertex and every entry naming it are gone; its laws are in `Graphs.WithoutVertexFacts` and `Graphs.RemovedEverywhere` |
| Graphs.RemovedEverywhere | src/data-structures/Graph.ts:30-34 | given symmetry, deleting the vertex from its neighbours' maps and then the vertex removes every entry that mentions it |
| Graphs.Graph.constructor | src/data-structures/Graph.ts:2-3 | a new graph has no vertices |
| Graphs.Graph.AddVertex | src/data-structures/Graph.ts:5-9 | an absent vertex is added with no neighbours at the end of the order; an existing vertex keeps its neighbours (idempotent) |
| Graphs.Graph.WithVertex | src/data-structures/Graph.ts:5-9 | the value form of addVertex |
| Graphs.Graph.AddEdge | src/data-structures/Graph.ts:12-20 | both endpoints are present, u->v and v->u are w (overwriting), every other entry is unchanged, missing endpoints join the order, symmetry is kept |
| Graphs.Graph.WithEdge | src/data-structures/Graph.ts:12-17 | the value form of addEdge |
| Graphs.Graph.WithEndpoints | src/data-structures/Graph.ts:13-14 | the two addVertex calls at the start of addEdge |
| Graphs.Graph.SetBothWays | src/data-structures/Graph.ts:16-17 | the two map updates of addEdge |
| Graphs.Graph.RemoveEdge | src/data-structures/Graph.ts:22-25 | exactly the two directed entries go; vertices and order stay |
| Graphs.Graph.RemoveVertex | src/data-structures/Graph.ts:27-35 | the vertex and every entry pointing at it go, symmetry is kept, and the vertex leaves the order |
| Graphs.Graph.DetachFromNeighbours | src/data-structures/Graph.ts:30-32 | each neighbour's map loses the vertex; other maps are unchanged |
| Graphs.Graph.GetVertices | src/data-structures/Graph.ts:37-39 | every vertex once, in insertion order |
| Graphs.Graph.GetEdges | src/data-structures/Graph.ts:41-43 | none exactly for an unknown vertex; otherwise exactly its neighbours with their weights |
| Graphs.Graph.GetAllEdges | src/data-structures/Graph.ts:45-57 | each undirected edge exactly once as (lo, hi, w) with lo < hi, never a self-loop, no pair twice |
| Graphs.Graph.EdgesFrom | src/data-structures/Graph.ts:49-53 | the inner loop adds exactly the vertex's edges towards larger ids |
| Graphs.Graph.Relax | src/data-structures/Graph.ts:137-149 | every unvisited neighbour whose distance improves through the current vertex gets the new distance and the current vertex as predecessor; nothing else changes |
| Graphs.Graph.Explore | src/data-structures/Graph.ts:99-150 | the main loop keeps the search invariant; when it reaches end, end's distance is the shortest; when it stops otherwise, every unvisited vertex is unreachable |
| Graphs.Graph.Dijkstra | src/data-structures/Graph.ts:71-175 | none for an unknown endpoint and exactly when no path exists; a route is a path from start to end whose distance is its weight and minimal over all paths; dijkstra(s, s) is [s] with distance Infinity |
| ShortestPaths.OrInfinity | src/data-structures/Graph.ts:142 | `x \|\| Infinity` turns 0 and Infinity into Infinity and keeps every other distance |
| ShortestPaths.PathSplit | src/data-structures/Graph.ts:137-149 | a path splits at any vertex into two paths whose weights add up |
| ShortestPaths.FirstExit | src/data-structures/Graph.ts:99-128 | a path from a visited to an unvisited vertex has a first step that leaves the visited set |
| ShortestPaths.InitialDistances | src/data-structures/Graph.ts:86-89 | start gets 0 and every other vertex Infinity |
| ShortestPaths.InitialInv | src/data-structures/Graph.ts:81-89 | the initial tables satisfy the search invariant |
| ShortestPaths.ClosestIsShortest | src/data-structures/Graph.ts:104-128 | the closest unvisited vertex's distance is its shortest distance from start |
| ShortestPaths.NoZeroOutside | src/data-structures/Graph.ts:142 | with positive weights no unvisited vertex has distance 0, so `\|\| Infinity` is harmless there |
| ShortestPaths.StartSelectedFirst | src/data-structures/Graph.ts:104-114 | start is the first vertex selected |
| ShortestPaths.SettleKeepsInv | src/data-structures/Graph.ts:128-149 | visiting the closest vertex and relaxing its neighbours keeps the search invariant |
| ShortestPaths.SettledUnchanged | src/data-structures/Graph.ts:138 | relaxation never changes a visited vertex's distance |
| ShortestPaths.SettleKeepsTables | src/data-structures/Graph.ts:128-149 | the distance and predecessor tables stay well formed |
| ShortestPaths.SettleKeepsSettled | src/data-structures/Graph.ts:128 | every visited vertex's distance stays its shortest |
| ShortestPaths.SettleKeepsLinks | src/data-structures/Graph.ts:144-147 | each predecessor link stays an edge whose weight accounts for the distance |
| ShortestPaths.SettleKeepsFrontier | src/data-structures/Graph.ts:137-149 | every unvisited distance stays the best through visited vertices |
| ShortestPaths.SettleKeepsOrdered | src/data-structures/Graph.ts:104-128 | vertices are visited in non-decreasing distance |
| ShortestPaths.ExhaustedReach | src/data-structures/Graph.ts:118-121 | when every unvisited distance is Infinity, no path from start leaves the visited set |
| ShortestPaths.SettledFewer | src/data-structures/Graph.ts:99 | while end is unvisited, fewer vertices are visited than exist, so the loop runs on |
| ShortestPaths.SubsetOfDistinct | src/data-structures/Graph.ts:84 | a set drawn from a list has at most the list's length |
| ShortestPaths.SelectClosest | src/data-structures/Graph.ts:100-114 | none exactly when every unvisited distance is Infinity; otherwise an unvisited vertex of least distance, the earliest in insertion order among ties |
| ShortestPaths.Prepend | src/data-structures/Graph.ts:156-158 | putting a neighbour in front of a path gives a path heavier by that edge |
| ShortestPaths.TracePath | src/data-structures/Graph.ts:153-159 | following predecessors from end gives a path ending at end, beginning at a vertex with no predecessor, whose weight is the difference of the two distances |
| ShortestPaths.TraceStep | src/data-structures/Graph.ts:156-158 | one turn of the predecessor walk keeps a path to end whose weight accounts for end's distance; a predecessor is a neighbour strictly closer to start, and an unreachable end is its own whole walk |
| ShortestPaths.TraceOutcome | src/data-structures/Graph.ts:153-173 | the traced path starts at start exactly when end is reachable; then it is a shortest path, and for start = end it is [start] |
| OrderForm.FindLine | src/components/OrderForm.tsx:22 | the position of the cart line for the menu item, or the cart's length when none |
| OrderForm.BumpFacts | src/components/OrderForm.tsx:26-31 | the map changes only that line's quantity, by delta |
| OrderForm.SameIdsSameLine | src/components/OrderForm.tsx:22 | carts with the same ids line by line find the same line |
| OrderForm.WithoutFacts | src/components/OrderForm.tsx:62 | with unique ids, the filter drops exactly the item's line and keeps the rest in order |
| OrderForm.WithoutStep | src/components/OrderForm.tsx:62 | the filter's recursion step |
| OrderForm.WithoutAbsent | src/components/OrderForm.tsx:62 | filtering an absent id leaves the cart unchanged |
| OrderForm.AddItemFacts | src/components/OrderForm.tsx:21-46 | adding an item not in the cart appends a line with quantity 1; adding one in the cart adds 1 to its line and no line; other items are unchanged; at most one line per item and every quantity >= 1 |
| OrderForm.AddItem | src/components/OrderForm.tsx:21-46 | `handleAddItem`'s new cart; its laws are in `OrderForm.AddItemFacts` and `OrderForm.RemoveUndoesAdd` |
| OrderForm.AppendedLine | src/components/OrderForm.tsx:35-44 | where the search finds an item after a line is appended |
| OrderForm.RemoveItemFacts | src/components/OrderForm.tsx:48-64 | quantity > 1 drops by 1; quantity 1 drops the line, keeping the rest in order; an absent id leaves the cart unchanged; the cart invariant is kept |
| OrderForm.RemoveItem | src/components/OrderForm.tsx:48-64 | `handleRemoveItem`'s new cart; its laws are in `OrderForm.RemoveItemFacts` and `OrderForm.RemoveUndoesAdd` |
| OrderForm.DropFacts | src/components/OrderForm.tsx:62 | dropping a line keeps the cart invariant and zeroes only that item |
| OrderForm.DroppedLine | src/components/OrderForm.tsx:62 | where the search finds each item after a line is dropped |
| OrderForm.LineBound | src/components/OrderForm.tsx:22 | the search stops at the first matching line |
| OrderForm.NoLineMeans | src/components/OrderForm.tsx:22 | with no matching line the search reports the cart's length |
| OrderForm.RemoveUndoesAdd | src/components/OrderForm.tsx:21-64 | removing an item right after adding it gives back the cart |
| OrderForm.Submit | src/components/OrderForm.tsx:73-92 | an empty cart submits nothing and changes nothing; otherwise the request carries the cart, table and instructions, and the form is reset |
| OrdersPage.FilteredFacts | src/pages/Orders.tsx:9-11 | 'ALL' keeps every order; any other filter keeps exactly the orders with that status |
| OrdersPage.Filtered | src/pages/Orders.tsx:9-11 | the orders the status filter keeps; its laws are in `OrdersPage.FilteredFacts` |
| OrdersPage.InsertSorted | src/pages/Orders.tsx:13-15 | inserting into a newest-first list keeps it newest first |
| OrdersPage.InsertPermutes | src/pages/Orders.tsx:13-15 | insertion adds exactly the order |
| OrdersPage.InsertStable | src/pages/Orders.tsx:13-15 | among orders created at the same instant, insertion keeps their order |
| OrdersPage.NewestFirstFacts | src/pages/Orders.tsx:13-15 | the sort gives non-increasing `createdAt` and a permutation of its input |
| OrdersPage.NewestFirst | src/pages/Orders.tsx:13-15 | the stable newest-first sort by `createdAt`; its laws are in `OrdersPage.NewestFirstFacts` and `OrdersPage.NewestFirstStable` |
| OrdersPage.NewestFirstStable | src/pages/Orders.tsx:13-15 | the sort is stable, as `Array.prototype.sort` is |
| OrdersPage.ListedFacts | src/pages/Orders.tsx:9-15 | the listing is newest first, stable, and exactly the filtered orders |
| OrdersPage.Listed | src/pages/Orders.tsx:9-15 | the orders the page lists for a filter: filtered, then sorted newest first; its laws are in `OrdersPage.ListedFacts` |
| OrdersPage.StatusActionsFacts | src/pages/Orders.tsx:27-91 | completed and cancelled offer nothing; otherwise the current status, its single forward successor and (before served) cancelled are offered, and no backward step |
| OrdersPage.StatusActions | src/pages/Orders.tsx:27-91 | the statuses `getStatusActions` offers for each status, in option order, none for the last two; its laws are in `OrdersPage.StatusActionsFacts` |
| AppContext.IndexOfId | src/context/AppContext.tsx:226-227 | the position of the first order with the id, or the length when none |
| AppContext.RequeuedFacts | src/context/AppContext.tsx:232-243 | taking out position i loses exactly that order |
| AppContext.Requeued | src/context/AppContext.tsx:232-243 | the queue after taking out position i: the orders behind it, then the ones ahead of it; `AppContext.RequeuedFacts` proves only the target is lost |
| AppContext.RemoveFoundOrder | src/context/AppContext.tsx:278-284 | the order found by id is the first one equal to it, so removing it by value removes exactly its position |
| AppContext.ChangesForNone | src/context/AppContext.tsx:315-326 | no order with the id, no change record |
| AppContext.ChangesForOne | src/context/AppContext.tsx:315-326 | with unique ids, exactly one record carrying the order's actual old status |
| AppContext.ChangesFor | src/context/AppContext.tsx:317-327 | the records `updateOrderStatus` pushes: one per order with the id, in order, each carrying that order's status; its laws are in `AppContext.ChangesForNone` and `AppContext.ChangesForOne` |
| AppContext.UndoRestoresStatus | src/context/AppContext.tsx:315-359 | undoing a status update gives every order back, except that the target's updatedAt is the undo time |
| AppContext.SeededRing | src/context/AppContext.tsx:77-79 | the ring holds the roster in order |
| AppContext.AppState.constructor | src/context/AppContext.tsx:58-79 | no orders, the initial waiters and tables, empty queue, lists and stack, and the roster in the ring |
| AppContext.AppState.SetOrders | src/context/AppContext.tsx:59 | replaces the orders and keeps the invariant |
| AppContext.AppState.SetWaiters | src/context/AppContext.tsx:60 | replaces the waiters and keeps the invariant |
| AppContext.AppState.SetTables | src/context/AppContext.tsx:61 | replaces the tables and keeps the invariant |
| AppContext.AppState.QueueOrder | src/context/AppContext.tsx:209 | a pending order joins the back of the queue |
| AppContext.AppState.TakeFromQueue | src/context/AppContext.tsx:232-243 | returns the order at the index; the queue becomes the orders behind it followed by those ahead of it |
| AppContext.AppState.TakeOut | src/context/AppContext.tsx:232-243 | the dequeue, dequeue-target and requeue steps on the queue itself |
| AppContext.AppState.DequeueAhead | src/context/AppContext.tsx:235-238 | the orders ahead of the target leave the queue in order |
| AppContext.AppState.EnqueueAll | src/context/AppContext.tsx:243 | the orders go to the back of the queue in order |
| AppContext.AppState.AppendToKitchen | src/context/AppContext.tsx:255 | an in-progress order joins the end of the kitchen list |
| AppContext.AppState.RemoveFromKitchen | src/context/AppContext.tsx:284 | the first equal order leaves the kitchen list |
| AppContext.AppState.Unlist | src/context/AppContext.tsx:284 | the list removal, with the footprint only shrinking |
| AppContext.AppState.AppendToServed | src/context/AppContext.tsx:294 | a served order joins the end of the served list |
| AppContext.AppState.Record | src/context/AppContext.tsx:258-264 | the record goes on top of the change stack |
| AppContext.AppState.AddOrder | src/context/AppContext.tsx:199-222 | the new pending order joins the back of the queue and the end of `orders`; the table with its number becomes occupied by it; the other tables and the waiters are unchanged |
| AppContext.NewOrder | src/context/AppContext.tsx:200-206 | the order `addOrder` builds: the request's fields with the new id, status Pending and both timestamps `now` |
| AppContext.Occupy | src/context/AppContext.tsx:215-221 | `addOrder`'s table update: the table whose id equals the order's table number becomes Occupied by the order, the others stay |
| AppContext.AppState.MoveOrderToKitchen | src/context/AppContext.tsx:224-274 | an id not queued changes nothing; otherwise the queue becomes the orders behind the target then those ahead, an in-progress copy joins the kitchen list, the record says Pending -> InProgress, and `orders` takes the copy |
| AppContext.Replaced | src/context/AppContext.tsx:267-273 | the `map` that puts the moved copy in place of every order with that id, used by both move actions (src/context/AppContext.tsx:306-312 too) |
| AppContext.AppState.MoveOrderToServed | src/context/AppContext.tsx:276-313 | an id not in the kitchen list changes nothing; otherwise the order leaves the kitchen list, a served copy joins the served list, the record says InProgress -> Served, and `orders` takes the copy |
| AppContext.AppState.UpdateOrderStatus | src/context/AppContext.tsx:315-339 | each order with the id gets the status, one record per such order carries its actual old status, and the containers are unchanged |
| AppContext.SetStatus | src/context/AppContext.tsx:317-335 | every order with the id gets the status and `updatedAt`, the rest stay; `undoLastChange` uses it with the recorded status (src/context/AppContext.tsx:347-358), and `AppContext.UndoRestoresStatus` proves the two cancel |
| AppContext.AppState.Restatus | src/context/AppContext.tsx:316-337 | the map over the orders and the records it pushes |
| AppContext.AppState.UndoLastChange | src/context/AppContext.tsx:341-359 | an empty history changes nothing; otherwise exactly one record is popped and the orders with its id get its previous status back, with the queue and lists untouched |
| AppContext.AppState.AssignWaiterToOrder | src/context/AppContext.tsx:361-393 | an empty ring changes nothing; otherwise the ring advances one step, the order gets that waiter, and that waiter's current orders gain the order id |
| AppContext.SetWaiter | src/context/AppContext.tsx:368-379 | every order with the id gets the waiter and `updatedAt`, the rest stay |
| AppContext.WithCurrentOrder | src/context/AppContext.tsx:382-392 | the waiter with that id gets the order id appended to its current orders, the others stay |
| AppContext.CancelMoveUndo | src/context/AppContext.tsx:248-264 | an order cancelled while queued is moved on a record saying Pending, so undoing the move makes it pending again while it stays in the kitchen list |

## Left out

- Prices, `totalPrice` and `calculateTotal` (src/components/OrderForm.tsx:66-71): floating-point arithmetic.
- Edge weights are natural numbers, not the floats `Math.sqrt` produces. `Graphs.Graph.AddEdge` requires a positive weight: `distances.get(neighbor) || Infinity` treats a distance of 0 as unreachable, which is only harmless without zero-weight edges.
- `Graphs.Graph.Relax` visits neighbours in no particular order. The source uses `Map` insertion order, which cannot change the outcome of relaxation.
- `Graphs.Graph.GetAllEdges` states which edges are listed and that none repeats, not the order in which they come: the model's map has no enumeration order for neighbours.
- `Graphs.LexLess` compares strings by character code, not by UTF-16 code units with surrogate pairs.
- `HashTables.HashTable.Hash` weighs each character by its Unicode code point and counts characters, where `charCodeAt` and `length` work on UTF-16 code units (src/data-structures/HashTable.ts:15-16). Keys outside the Basic Multilingual Plane, which take a surrogate pair, can land in a different bucket than in the source, and `getAll` then lists them in a different order. Strings here are sequences of characters, with no UTF-16 encoding.
- `HashTables.HashTable.GetAll` returns the entries as values. The source pushes the live entry objects (src/data-structures/HashTable.ts:70) and `set` overwrites `value` in place (src/data-structures/HashTable.ts:27), so an array returned earlier shows later overwrites; the model does not capture that aliasing.
- Graph ids must be non-empty: `!current` and `while (current)` treat `""` as absent.
- `Graphs.Graph.GetEdges` returns the neighbour map as a value. The source hands out the live `Map`, which a caller could mutate.
- All console logging and `debugGraph`: diagnostic output only.
- The app's seeding of the menu tree and hash table, and `addRestaurantPaths`/`calculateDistance`. Their weights are floats, and `compareMenuItems` uses the locale-dependent `localeCompare`. The tree takes any comparator that is a total preorder.
- `findShortestPath`: it only delegates to `dijkstra`.
- The menu tree, the menu hash table and the restaurant map graph that the provider also creates (src/context/AppContext.tsx:70-72) are not fields of `AppContext.AppState`: no modelled action reads or changes them. The three structures themselves are modelled on their own in `BinaryTrees`, `HashTables` and `Graphs`.
- React rendering, hooks, routing and context plumbing. `setOrders`, `setWaiters` and `setTables` take effect immediately, and an updater runs exactly once (React may call one twice).
- `handleStatusChange`'s timer that marks a served order completed two seconds later (src/pages/Orders.tsx:20-24): a timer is asynchronous.
- `uuidv4()` and `new Date()` become parameters.
- `description` strings of change records, and table coordinates, image URLs and item descriptions: display text.
- `AppContext.AppState.MoveOrderToKitchen` has no path for the source's `if (!currentOrder) return`: the target was found in the queue, so a value is always dequeued.
- Orders are compared by value, not by object identity. Ids come from `uuidv4` and are unique, so the two agree.
- The search behind `moveOrderToServed` uses `IndexOfId` over `toArray()`. The source uses `find`, which picks the same order.
