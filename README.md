# Percolation, deques, randomized queues and points — a verified model

This project is a Dafny model of the core of a set of solutions to the first three programming
assignments of the Princeton algorithms course:

- **Weighted union-find** (`WeightedUnionFind`): a disjoint-set forest kept in a parent array
  `unions` and a tree-size array `weights`. It offers `union`, `connected` and a looping `rootOf`.
  When two classes are merged, the root of the *smaller* weight becomes the parent, and on equal
  weights `p`'s root goes under `q`'s root. The model keeps that rule exactly.
- **Percolation** (`Percolation`): an N-by-N grid of sites, each blocked or open, plus two
  union-find forests.
  - `percolatingSites` has a virtual top node and a virtual bottom node.
  - `fullSites` has the virtual top only, so a site never becomes full through the bottom row
    ("backwash").
  - `open` opens a site, then unions it with its open orthogonal neighbours and with the virtual
    node of its row.
  - `isFull` and `percolates` are connectivity queries on the two forests.
- **Deque** (`Deque`): a doubly linked list with `first`, `last` and `size`. It supports insertion
  and removal at both ends, and a front-to-back iterator.
- **Randomized queue** (`RandomizedQueue`): a resizing array of items.
  - `enqueue` and `dequeue` randomly swap slots.
  - `dequeue` removes a random item, and `sample` returns one.
  - The iterator walks the items in a shuffled order of their slots.
- **Point** (`Point`): points with `int` coordinates. `compareTo` orders them by y, then by x.
  `slopeTo` has three special cases: the same point gives negative infinity, a vertical line gives
  positive infinity, and a horizontal line gives zero.

Modules:

| file | module | contents |
|---|---|---|
| `wrappers.dfy` | `Wrappers` | `Option`, for Java `null`; `Result`, for a value or one of the Java exceptions the code throws |
| `union_find.dfy` | `UnionFinds` | the class `WeightedUnionFind`, over its two arrays. Ghost state: a representative per element (the partition) and a depth per element (so `rootOf` terminates) |
| `paths.dfy` | `Paths` | reachability over an undirected edge set. `Tracks(root, e)` says that a partition is exactly reachability in `e` |
| `grid.dfy` | `Grid` | index arithmetic, the neighbour candidates, the edge sets of a grid. Reference definitions of a full site and of percolation, by open paths and with no virtual nodes |
| `percolation.dfy` | `Percolations` | the class `Percolation`, built on two `WeightedUnionFind` objects. Its invariant: each forest's partition is reachability over that forest's edges |
| `deque.dfy` | `Deques` | the classes `Node`, `Deque` and `DequeIterator`. Ghost state: contents, node sequence and footprint |
| `randomized_queue.dfy` | `RandomizedQueues` | the classes `RandomizedQueue` and `RandomizedQueueIterator`, over an array of optional items. Also the shuffle and swap routines they use |
| `point.dfy` | `Points` | the `Point` and `Slope` datatypes, `CompareTo`, `SlopeTo`, and the key `Rank` that specifies the order |

Modelling conventions:

- A Java `null` argument is the `None` of an `Option`.
- A thrown exception is a `Throws` result. Checks that happen before any state change, such as
  `throwIfNull`, `throwIfEmpty` and `verifyIndex`, leave the state unchanged.
- A call `StdRandom.uniform(k)` is an arbitrary choice in `[0, k)`. A call to `StdRandom.shuffle`
  is a Fisher–Yates pass whose every swap partner is an arbitrary choice.
- Every property about the randomized queue holds for every such choice.

## Model

| member | source | states |
|---|---|---|
| `UnionFinds.WeightedUnionFind.constructor` | 01-percolation/src/WeightedUnionFind.java:2-12 | Every element is its own parent with weight 1, and two elements are together iff they are equal. |
| `UnionFinds.WeightedUnionFind.RootOf` | 01-percolation/src/WeightedUnionFind.java:33-38 | The parent-following loop terminates, because the depth to the root decreases. It returns a root (`unions[r] == r`), and that root is the element's representative. |
| `UnionFinds.WeightedUnionFind.Connected` | 01-percolation/src/WeightedUnionFind.java:14-16 | True iff the two elements have the same representative. That makes `connected` an equivalence relation. |
| `UnionFinds.WeightedUnionFind.Union` | 01-percolation/src/WeightedUnionFind.java:18-31 | Afterwards `p` and `q` are together. Exactly their two classes are merged, so any other pair is together iff it was before. If they were already together, nothing changes. Otherwise the root of smaller weight (or, on a tie, `q`'s root) becomes the parent and receives the other root's weight, and no other parent link or weight changes. The forest stays acyclic and weighted. |
| `UnionFinds.WeightedUnionFind.Link` | 01-percolation/src/WeightedUnionFind.java:24-30 | Hanging one root under another changes exactly that parent link and the new parent's weight. The result is a forest whose partition is the old one with the two classes joined. |
| `UnionFinds.WeightedUnionFind.WeightAtMostSize` | 01-percolation/src/WeightedUnionFind.java:24-30 | The weight of every root is between 1 and the number of elements. |
| `UnionFinds.RelinkMergesExactly` | 01-percolation/src/WeightedUnionFind.java:24-30 | Renaming one representative to another, in either direction, joins exactly the classes of `p` and `q` and keeps every representative its own representative. |
| `UnionFinds.LinkKeepsForest` | 01-percolation/src/WeightedUnionFind.java:24-30 | Linking one root under a different root keeps the parent array a forest, with depths that still bound the walk to the root. |
| `UnionFinds.LinkKeepsWeights` | 01-percolation/src/WeightedUnionFind.java:24-30 | After a link that adds the child's weight to the parent, every root's weight is still the size of its class. |
| `UnionFinds.RelinkCounts` | 01-percolation/src/WeightedUnionFind.java:26 | Merging two classes adds the child's class size to the parent's class size and empties the child's class. All other classes keep their sizes. |
| `UnionFinds.SingletonCount` | 01-percolation/src/WeightedUnionFind.java:9-11 | In the initial partition every class has exactly one element, so the initial weights of 1 are correct. |
| `Paths.TracksAddEdge` | 01-percolation/src/WeightedUnionFind.java:18-31 | If a partition is exactly reachability over a symmetric edge set, then after merging the classes of `u` and `v` it is exactly reachability over that set plus the edge `u`–`v`. |
| `Paths.SingletonsTrackNothing` | 01-percolation/src/WeightedUnionFind.java:2-12 | The initial partition is exactly reachability with no edges. |
| `Paths.BetweenVirtuals` | 01-percolation/src/Percolation.java:54-56 | The virtual top reaches the virtual bottom iff some open site wired to the top reaches some open site wired to the bottom without passing through either virtual node. |
| `Paths.ThroughVirtual` | 01-percolation/src/Percolation.java:49-52 | A virtual node reaches a site iff some open site wired to it reaches that site through site edges alone. |
| `Grid.GetIndex` | 01-percolation/src/Percolation.java:58-60 | A valid `(i, j)` maps into `[0, N*N)`. |
| `Grid.ValidIndex` | 01-percolation/src/Percolation.java:68-70 | A coordinate on the grid has its row-major offset inside the site array. |
| `Grid.IndexInRange` | 01-percolation/src/Percolation.java:58-60 | The row-major index of a valid `(i, j)` lies in `[0, N*N)`, and row and column can be read back from it. |
| `Grid.RowColInRange` | 01-percolation/src/Percolation.java:58-60 | Every index in `[0, N*N)` is the index of a valid site. Together with `IndexInRange`, the map is a bijection. |
| `Grid.IndexInjective` | 01-percolation/src/Percolation.java:58-60 | Two valid sites have the same index iff they are the same site. |
| `Grid.VirtualNodes` | 01-percolation/src/Percolation.java:12-13 | Every site index lies below the virtual top `N*N`, and the virtual top lies below the virtual bottom `N*N+1`. |
| `Grid.Top` | 01-percolation/src/Percolation.java:12 | The virtual top is not the index of any site. |
| `Grid.Bottom` | 01-percolation/src/Percolation.java:13 | The virtual bottom is not the index of any site, and differs from the virtual top. |
| `Grid.Candidates` | 01-percolation/src/Percolation.java:73-77 | Four candidates, and a pair is among them iff it is one step up, down, left or right of `(i, j)`. |
| `Grid.BoundaryRows` | 01-percolation/src/Percolation.java:26-32 | A site is in row 1 iff its index is below `N`, and in row `N` iff its index is at least `N*N-N`. |
| `Grid.ValidPairsMembers` | 01-percolation/src/Percolation.java:79-97 | The filtered pairs are exactly the candidates that lie on the grid. |
| `Grid.NeighbourMembers` | 01-percolation/src/Percolation.java:72-98 | The neighbours of `(i, j)` are exactly those of up, down, left and right that lie on the grid. |
| `Grid.NeighboursAreAdjacent` | 01-percolation/src/Percolation.java:72-98 | A site index is the index of a returned neighbour iff it is orthogonally adjacent to `(i, j)`. |
| `Grid.EdgesSymmetric` | 01-percolation/src/Percolation.java:34-41 | The edge sets of the grid and of both forests are symmetric, as `union` is. |
| `Grid.OpenEdges` | 01-percolation/src/Percolation.java:21-41 | Opening a site adds to each forest's edge set exactly the edges to its open neighbours and to the virtual node or nodes of its row. |
| `Grid.OpenNeighboursJoined` | 01-percolation/src/Percolation.java:37-40 | Two adjacent open sites are joined by an edge. |
| `Grid.FullBridge` | 01-percolation/src/Percolation.java:49-52 | In the full-sites graph the virtual top reaches a site iff an open path links that site to an open top-row site. |
| `Grid.PercBridge` | 01-percolation/src/Percolation.java:54-56 | In the percolating graph the virtual top reaches the virtual bottom iff an open path links the top row to the bottom row. |
| `Grid.ClosedNeverFull` | 01-percolation/src/Percolation.java:49-52 | A blocked site is never full. |
| `Grid.OpeningIsMonotone` | 01-percolation/src/Percolation.java:21-24 | Opening more sites keeps every full site full, and keeps a percolating grid percolating. |
| `Grid.BlockedGrid` | 01-percolation/src/Percolation.java:9-19 | In a grid with every site blocked, no site is full and the grid does not percolate. |
| `Percolations.Percolation.constructor` | 01-percolation/src/Percolation.java:9-19 | The grid is `n` by `n` with every site blocked, no site full and no percolation. The forests have `n*n+2` and `n*n+1` elements. |
| `Percolations.Percolation.IsOpen` | 01-percolation/src/Percolation.java:44-47 | Throws `IndexOutOfBounds` iff `(i, j)` is off the grid, and otherwise returns that site's flag. |
| `Percolations.Percolation.Open` | 01-percolation/src/Percolation.java:21-42 | Throws `IndexOutOfBounds` iff `(i, j)` is off the grid, and then changes nothing. Otherwise it sets exactly that site's flag, so no site is ever closed again. Both forests go on standing for reachability over the new grid. |
| `Percolations.UnionOpened` | 01-percolation/src/Percolation.java:26-41 | The unions after a site is set open bring both forests from the reachability of the old grid to that of the new one. |
| `Percolations.UnionVirtual` | 01-percolation/src/Percolation.java:26-32 | A row-1 site is united with the virtual top in both forests. A row-`N` site is united with the virtual bottom in the percolating forest only. |
| `Percolations.UnionTop` | 01-percolation/src/Percolation.java:26-29 | Uniting a row-1 site with the virtual top in both forests makes each forest track its edge set plus that edge. |
| `Percolations.UnionOpenNeighbours` | 01-percolation/src/Percolation.java:34-41 | After the loop, each forest has also absorbed the edges to every open neighbour in the list. |
| `Percolations.UnionTracked` | 01-percolation/src/Percolation.java:38-39 | One `union` on a forest that tracks an edge set makes it track that set plus the united pair. |
| `Percolations.OpenTracked` | 01-percolation/src/Percolation.java:21-41 | If the forests track the old grid's edge sets plus the edges that `open`'s unions add (to the virtual nodes of the site's row and to its open neighbours), then they track the edge sets of the grid after the opening. |
| `Percolations.Percolation.IsFull` | 01-percolation/src/Percolation.java:49-52 | Throws `IndexOutOfBounds` iff `(i, j)` is off the grid. Otherwise it returns true iff an open path links the site to an open top-row site. |
| `Percolations.Percolation.Percolates` | 01-percolation/src/Percolation.java:54-56 | True iff an open path links an open top-row site to an open bottom-row site. |
| `Percolations.Percolation.Neighbours` | 01-percolation/src/Percolation.java:72-98 | Returns, in the order up, down, left, right, exactly those of the four candidates that lie on the grid. |
| `Percolations.Percolation.OnGrid` | 01-percolation/src/Percolation.java:79-97 | The two counting loops return the on-grid pairs of the input, in order. |
| `Percolations.BackwashPercolates` | 01-percolation/src/Percolation.java:54-56 | With the first column and the bottom-right corner of a 3-by-3 grid open, the grid percolates. |
| `Percolations.CornerNotFull` | 01-percolation/src/Percolation.java:30-32 | In that same grid the bottom-right corner is not full: there is no backwash through the bottom row. |
| `Percolations.BackwashExample` | 01-percolation/src/Percolation.java:30-32 | Opening `(1,1)`, `(2,1)`, `(3,1)` and `(3,3)` on a new 3-by-3 grid makes it percolate, while `isFull(3,3)` stays false. |
| `Percolations.OpenBackwashSites` | 01-percolation/src/Percolation.java:21-42 | Those four `open` calls on a blocked 3-by-3 grid leave exactly those four sites open. |
| `Percolations.SingleSitePercolates` | 01-percolation/src/Percolation.java:54-56 | A 1-by-1 grid with its site open percolates. |
| `Percolations.SingleSiteExample` | 01-percolation/src/Percolation.java:54-56 | A new 1-by-1 grid percolates after `open(1,1)`. |
| `Deques.Deque.constructor` | 02-randomized_queues_and_deques/src/Deque.java:24-28 | A new deque is empty and satisfies the list invariant. |
| `Deques.Node.constructor` | 02-randomized_queues_and_deques/src/Deque.java:10-14 | A node holds exactly the given `next`, `prev` and item. |
| `Deques.Deque.IsEmpty` | 02-randomized_queues_and_deques/src/Deque.java:34-36 | True iff the deque holds no items. |
| `Deques.Deque.Size` | 02-randomized_queues_and_deques/src/Deque.java:42-44 | The number of items. |
| `Deques.Deque.AddFirst` | 02-randomized_queues_and_deques/src/Deque.java:50-65 | A null item throws `NullPointer` and changes nothing. Otherwise the contents become `[x] + old`. The list invariant is kept: `first` and `last` are null iff the deque is empty, and the links run both ways. |
| `Deques.Deque.AddLast` | 02-randomized_queues_and_deques/src/Deque.java:71-86 | A null item throws `NullPointer` and changes nothing. Otherwise the contents become `old + [x]`, and the list invariant is kept. |
| `Deques.Deque.LinkFirst` | 02-randomized_queues_and_deques/src/Deque.java:53-64 | Linking a new node in front makes the contents `[x] + old`, in both the empty and the non-empty case. |
| `Deques.Deque.LinkLast` | 02-randomized_queues_and_deques/src/Deque.java:74-85 | Linking a new node at the end makes the contents `old + [x]`, in both the empty and the non-empty case. |
| `Deques.Deque.RemoveFirst` | 02-randomized_queues_and_deques/src/Deque.java:92-105 | An empty deque throws `NoSuchElement` and changes nothing. Otherwise it returns `old[0]` and leaves `old[1..]`, and the list invariant is kept. |
| `Deques.Deque.RemoveLast` | 02-randomized_queues_and_deques/src/Deque.java:111-124 | An empty deque throws `NoSuchElement` and changes nothing. Otherwise it returns the last item and leaves the rest in order. |
| `Deques.Deque.Iterator` | 02-randomized_queues_and_deques/src/Deque.java:130-132 | A new iterator over this deque, at the front. |
| `Deques.DequeIterator.constructor` | 02-randomized_queues_and_deques/src/Deque.java:132 | The iterator starts at the front: `lastAccessed` is the first node, or null for an empty deque. |
| `Deques.DequeIterator.HasNext` | 02-randomized_queues_and_deques/src/Deque.java:135-137 | True iff some items have not been returned yet. |
| `Deques.DequeIterator.Next` | 02-randomized_queues_and_deques/src/Deque.java:140-149 | Returns the item at the current position and advances. Once every item has been returned it throws `NoSuchElement`. |
| `Deques.Drain` | 02-randomized_queues_and_deques/src/Deque.java:130-156 | Iterating to the end yields exactly the contents, front to end, and then `next` throws. |
| `Deques.DequeExample` | 02-randomized_queues_and_deques/src/Deque.java:50-124 | A new deque is empty. `addFirst(null)` throws. After `addFirst(1)` and `addLast(2)`, `removeLast` gives 2 and `removeFirst` gives 1, and a further removal throws. |
| `RandomizedQueues.RandomizedQueue.constructor` | 02-randomized_queues_and_deques/src/RandomizedQueue.java:47-50 | A new queue is empty, with two slots. |
| `RandomizedQueues.RandomizedQueue.IsEmpty` | 02-randomized_queues_and_deques/src/RandomizedQueue.java:56-58 | True iff the queue holds no items. |
| `RandomizedQueues.RandomizedQueue.Size` | 02-randomized_queues_and_deques/src/RandomizedQueue.java:65-67 | The number of items. |
| `RandomizedQueues.RandomizedQueue.Enqueue` | 02-randomized_queues_and_deques/src/RandomizedQueue.java:74-86 | A null item throws `NullPointer` and changes nothing. Otherwise the item multiset gains exactly the item and `size` grows by one. The capacity doubles exactly when the array was full. The invariant is kept: at least two slots, items in the first `size` slots, every later slot empty. This holds for every random choice. |
| `RandomizedQueues.RandomizedQueue.Dequeue` | 02-randomized_queues_and_deques/src/RandomizedQueue.java:92-110 | An empty queue throws `NoSuchElement` and changes nothing. Otherwise it returns an item of the queue and removes exactly one copy of it, and `size` drops by one. The capacity becomes `2*size` exactly when it was at least four times the size. All of this holds for every random choice. |
| `RandomizedQueues.RandomizedQueue.TakeRandom` | 02-randomized_queues_and_deques/src/RandomizedQueue.java:103-109 | Moving the last item into the slot of an arbitrary item, and clearing the last slot, removes exactly that item and keeps the empty tail. |
| `RandomizedQueues.RandomizedQueue.Sample` | 02-randomized_queues_and_deques/src/RandomizedQueue.java:116-122 | An empty queue throws `NoSuchElement`. Otherwise it returns one of the queue's items. It changes nothing. |
| `RandomizedQueues.RandomizedQueue.Iterator` | 02-randomized_queues_and_deques/src/RandomizedQueue.java:128-130 | A new iterator over the queue's array and its `size` live slots, at position 0. |
| `RandomizedQueues.RandomizedQueue.ItemsRealloc` | 02-randomized_queues_and_deques/src/RandomizedQueue.java:132-139 | The new array keeps the first `size` slots in order, and every later slot is empty. |
| `RandomizedQueues.RandomizedQueue.RandomSwap` | 02-randomized_queues_and_deques/src/RandomizedQueue.java:141-152 | Whatever the random choices, the live prefix is only permuted and the empty tail is untouched. |
| `RandomizedQueues.SwapWithin` | 02-randomized_queues_and_deques/src/RandomizedQueue.java:143-148 | Swapping two slots of a range keeps the range's multiset, and nothing outside the range changes. |
| `RandomizedQueues.Swap` | 02-randomized_queues_and_deques/src/RandomizedQueue.java:146-148 | The two slots exchange their contents, and every other slot is unchanged. |
| `RandomizedQueues.Shuffle` | 02-randomized_queues_and_deques/src/RandomizedQueue.java:150 | The shuffle of a range permutes it (same multiset) for every choice of swap partners, and leaves everything outside the range unchanged. |
| `RandomizedQueues.RandomizedQueueIterator.constructor` | 02-randomized_queues_and_deques/src/RandomizedQueue.java:12-20 | The index array is a permutation of `0 .. n-1`, so every index is in range. |
| `RandomizedQueues.RandomizedQueueIterator.HasNext` | 02-randomized_queues_and_deques/src/RandomizedQueue.java:23-25 | True iff some indices have not been visited. |
| `RandomizedQueues.RandomizedQueueIterator.Next` | 02-randomized_queues_and_deques/src/RandomizedQueue.java:28-33 | Returns the slot at the next shuffled index and advances. Once every index has been used it throws `NoSuchElement`. |
| `RandomizedQueues.Drain` | 02-randomized_queues_and_deques/src/RandomizedQueue.java:12-33 | Iterating to the end visits every item of the queue exactly once, as a multiset, and then `next` throws. |
| `RandomizedQueues.GatherPermutation` | 02-randomized_queues_and_deques/src/RandomizedQueue.java:16-19 | Reading an array through two index sequences that are permutations of each other gives the same multiset of items. |
| `RandomizedQueues.RangeMembers` | 02-randomized_queues_and_deques/src/RandomizedQueue.java:16-18 | The identity index array holds exactly the numbers `0 .. n-1`. |
| `RandomizedQueues.QueueExample` | 02-randomized_queues_and_deques/src/RandomizedQueue.java:74-110 | `enqueue(null)` throws. Three items double the capacity to four. A `dequeue` returns one of them and leaves two. |
| `Points.Wrap32` | 03-pattern_recognition/src/Point.java:60 | A Java `int` subtraction: the result is congruent to the exact difference modulo 2^32, and equal to it when the difference fits. |
| `Points.Point.CompareTo` | 03-pattern_recognition/src/Point.java:65-77 | A null argument throws `NullPointer`. Otherwise the result is -1, 0 or 1, and it is negative, zero or positive exactly as this point's key is below, equal to or above the other's. |
| `Points.Point.SlopeTo` | 03-pattern_recognition/src/Point.java:49-61 | A null argument throws `NullPointer`. Otherwise the slope is negative infinity iff the points are equal, positive infinity iff they differ but share x, zero iff they differ but share y, and otherwise a ratio with non-zero differences. |
| `Points.Point.SlopeToAsWritten` | 03-pattern_recognition/src/Point.java:49-61 | The slope with the `int` subtractions of the source. A null argument throws `NullPointer`, and the special cases coincide with `SlopeTo`. |
| `Points.RankOrder` | 03-pattern_recognition/src/Point.java:70 | The key orders points by y first and by x among equal y. |
| `Points.RankInjective` | 03-pattern_recognition/src/Point.java:72 | Two points have the same key iff they are equal. |
| `Points.CompareToSpec` | 03-pattern_recognition/src/Point.java:65-77 | `compareTo` gives 0 iff both coordinates are equal. It gives -1 iff y is smaller, or y is equal and x smaller. It gives 1 in the mirrored case. |
| `Points.CompareAntisymmetric` | 03-pattern_recognition/src/Point.java:65-77 | Swapping the arguments negates the result. |
| `Points.CompareTransitive` | 03-pattern_recognition/src/Point.java:65-77 | The order is transitive, for both "at most" and "strictly less", so it is a total order. |
| `Points.SlopeSymmetric` | 03-pattern_recognition/src/Point.java:49-61 | The slope from `p` to `q` equals the slope from `q` to `p`, with ratios compared as fractions. |
| `Points.AsWrittenExactInRange` | 03-pattern_recognition/src/Point.java:60 | When both coordinate differences fit in an `int`, the source's slope is the exact one. |
| `Points.AsWrittenNotSymmetric` | 03-pattern_recognition/src/Point.java:60 | From (1, 0) to (2, -2^31) the source computes -2^31 / 1, but in the other direction it computes -2^31 / -1. The slope is therefore not symmetric. |

## Left out

- `Percolation` uses the library class `WeightedQuickUnionUF`, which is not part of this model. The
  model uses the `WeightedUnionFind` class modelled here, which has the same `union` and
  `connected`. Only the tree shapes could differ, and those are not observable through `isFull` or
  `percolates`.
- `StdRandom` is not part of this model.
  - `uniform(k)` is an arbitrary choice in `[0, k)`.
  - `shuffle` is an arbitrary sequence of swaps within the range.
  - The old `shuffle(a, lo, hi)` of the library takes `hi` inclusively, so the call
    `shuffle(items, 0, size-1)` shuffles the first `size` slots. The model writes that range as
    `[0, size)`.
  - The uniformity of these choices, and the statistical tests about it, are not modelled.
- Java `int` overflow of `N * N`, of `size`, of the array capacities and of the union-find weights
  is not modelled; those values are unbounded integers here. In Java the wrap-around changes
  results only for very large inputs: `N * N` at Percolation.java:11 overflows once N > 46340, and
  `size * 4` at RandomizedQueue.java:97 (and `size * 2` after it) once the queue holds 2^29 or
  more items. The model does not cover those sizes. The `Point` coordinate subtractions are
  modelled with their wrap-around, in `Points.Point.SlopeToAsWritten`.
- `Points.Point.SlopeTo`: the general case is kept as the exact pair `(dy, dx)`. The rounding of
  the quotient to a `double`, and the double comparisons, are not modelled. `SLOPE_ORDER`, `draw`,
  `drawTo`, `toString` and `main` are drawing, formatting or double arithmetic, and are left out.
- `RandomizedQueues.RandomizedQueueIterator.Next` returns the slot as an `Option`. The iterator
  shares the queue's array, so a queue that changes during the iteration can leave an empty slot
  where an item was. The model allows that instead of requiring the queue to stay unchanged.
- `Deques.DequeIterator.Next`: the position is ghost state. The iterator is specified only while
  the deque it walks is not modified, and a deque changed during iteration is not modelled.
- UnionFinds.WeightedUnionFind.constructor: requires `n >= 0`. For a negative `n`, Java's
  `new int[n]` throws `NegativeArraySizeException`; that exception is not modelled.
- UnionFinds.WeightedUnionFind.RootOf: requires an index in `[0, n)`. For any other index Java
  throws `ArrayIndexOutOfBoundsException` from the array access; that exception is not modelled.
- UnionFinds.WeightedUnionFind.Connected: requires both indices in `[0, n)`. For any other index
  Java throws `ArrayIndexOutOfBoundsException` from `rootOf`; that exception is not modelled.
- UnionFinds.WeightedUnionFind.Union: requires both indices in `[0, n)`. For any other index Java
  throws `ArrayIndexOutOfBoundsException` from `rootOf`; that exception is not modelled.
- Percolations.Percolation.constructor: requires `n >= 1`. Java accepts `n <= 0` and builds an
  object on which no coordinate is valid, so `open`, `isOpen` and `isFull` always throw
  `IndexOutOfBoundsException` and `percolates()` is false. Such grids are not modelled.
- Iterator `remove()` only throws `UnsupportedOperationException`, and is left out.
- `PercolationStats` (a Monte Carlo driver with floating-point statistics), `Fast` and `Brute`
  (file input, drawing and double comparisons) and `Subset` (a command-line driver) are outside
  the core. So are the test files.
- Performance, tree height and amortised cost are not modelled.

## Findings

| source | as written | input that shows it | evidently intended | confidence | as-written member | corrected member |
|---|---|---|---|---|---|---|
| 03-pattern_recognition/src/Point.java:60 | `that.y - this.y` and `that.x - this.x` are `int` subtractions that wrap around, so `slopeTo` is not symmetric when a difference exceeds the `int` range | p = (1, 0), q = (2, -2147483648): `p.slopeTo(q)` is -2147483648, but `q.slopeTo(p)` divides the wrapped difference -2147483648 by -1 and gives +2147483648 | the slope of the exact differences, which is symmetric (the assignment's coordinates lie in 0..32767, where no wrap occurs) | not executed | `Points.AsWrittenNotSymmetric` (about `Points.Point.SlopeToAsWritten`) | `Points.SlopeSymmetric` (about `Points.Point.SlopeTo`) |
