# Movie recommendation data structures, modelled in Dafny

This project models the data-structure core of a small movie recommendation
web application (`dsa.js`):

- the watch-history **Stack**: a last-in, first-out list whose end is the top;
- the trending **MaxHeap**: an array-backed binary max-heap keyed on a movie's
  like count, with `insert`, `extractMax`, `rebuild` (bottom-up heapify) and
  `getTopK`;
- the **MovieGraph**: an undirected relation graph kept as an adjacency list,
  with depth-bounded breadth-first and depth-first traversals, degree, vertex
  and edge counts;
- the static **BinarySearch** helpers: a title search and a rating search,
  each on a sorted copy of the catalogue.

It also models the one client of the heap that sorts: the catalogue page's
`sortMoviesByPriority` (`app.js`), which inserts every movie into a fresh heap
and extracts until it is empty.

Modules and files:

| file | module | what it holds |
|---|---|---|
| `wrappers.dfy` | `Wrappers` | `Option`, the model of a `null` result |
| `catalog.dfy` | `Catalog` | the `Movie` record (id, title, rating, likes) |
| `sorting.dfy` | `Sorting` | a stable insertion sort by a comparison: the model of `Array.prototype.sort` on a copy |
| `text.dfy` | `Text` | `toLowerCase`, `includes` and `<` on strings |
| `stack.dfy` | `HistoryStack` | the `Stack` class and a replay model of call sequences |
| `heap.dfy` | `TrendingHeap` | heap-order predicates, the `MaxHeap` class, `SortByPriority` |
| `reach.dfy` | `Hops` | hop distance (`Reach`) in an adjacency list, the reference for both traversals |
| `graph.dfy` | `RelationGraph` | the `MovieGraph` class, its pure adjacency updates, the traversal invariants |
| `search.dfy` | `MovieSearch` | `SearchByTitle` and `SearchByRating` |

The classes keep the source's mutable state as fields: `Stack.items` and
`MaxHeap.heap` are `seq` fields that the methods reassign, and
`MovieGraph.adjacencyList` is a `map<int, seq<int>>`. The stack and graph
methods state their new state exactly. The heap methods state the new array
by what the source relies on: heap order, length and contents as a multiset.
They leave open where entries with equal like counts end up. Each class has a
`Valid()` invariant where the source relies on one: heap order for the heap, and for the graph that it
is undirected and lists every neighbour once. The traversals and searches are
methods with loops, proved against reference functions (`Reach`, `Sort`,
`FilterMatching`).

## Model

| member | source | states |
|---|---|---|
| HistoryStack.Stack.constructor | dsa.js:13-15 | a new stack is empty |
| HistoryStack.Stack.Push | dsa.js:21-23 | the element becomes the new top and nothing else changes |
| HistoryStack.Stack.Pop | dsa.js:29-34 | on an empty stack: `None`, and the stack is unchanged; otherwise: the top element, which is removed; the old items are the new items plus the returned element |
| HistoryStack.Stack.Peek | dsa.js:40-45 | `None` exactly when the stack is empty; otherwise the top element, which is the first one `GetAll` lists |
| HistoryStack.Stack.IsEmpty | dsa.js:51-53 | true exactly when the size is zero |
| HistoryStack.Stack.Size | dsa.js:59-61 | the number of elements `GetAll` lists |
| HistoryStack.Stack.GetAll | dsa.js:67-69 | the elements most recent first: entry `i` is the `i`-th from the top |
| HistoryStack.Reversed | dsa.js:67-69 | a reversed copy: same length, entry `i` is entry `n-1-i` of the input |
| HistoryStack.ReversedMembers | dsa.js:67-69 | reversing keeps exactly the same members |
| HistoryStack.Stack.Clear | dsa.js:75-77 | the stack is empty afterwards |
| HistoryStack.Stack.Contains | dsa.js:83-85 | true exactly when the element is in `GetAll`, that is, at some index of the stack |
| HistoryStack.ReplaySize | dsa.js:21-34 | for call sequences where no pop meets an empty stack: pops never outnumber pushes, and the size is pushes minus pops |
| HistoryStack.ReplaySizeAll | dsa.js:21-34 | for every call sequence, pops on an empty stack included: the successful pops never outnumber the pushes, and the size is pushes minus successful pops |
| HistoryStack.ReplayPushesOnly | dsa.js:21-23 | pushing `xs` onto an empty stack stores `xs` in push order |
| HistoryStack.PushThenPop | dsa.js:21-34 | last in, first out: a pop right after a push restores the stack from before the push |
| TrendingHeap.MaxHeap.constructor | dsa.js:94-96 | a new heap is empty and in heap order |
| TrendingHeap.MaxHeap.Insert | dsa.js:102-105 | keeps heap order; the contents become the old contents plus the new movie |
| TrendingHeap.MaxHeap.BubbleUp | dsa.js:111-126 | from a heap that is out of order only at `index`: a heap again, with the same contents |
| TrendingHeap.Swap | dsa.js:121-122 | the two entries are exchanged, every other entry is kept, and the contents are the same |
| TrendingHeap.AppendToHeap | dsa.js:102-105 | appending to a heap leaves it out of order at most at the new last node |
| TrendingHeap.SwapUpStep | dsa.js:111-126 | one swap with a smaller parent moves the only disorder one level up |
| TrendingHeap.UpDone | dsa.js:116-118 | once the node no longer beats its parent, the whole sequence is a heap |
| TrendingHeap.MaxHeap.ExtractMax | dsa.js:132-140 | `None` exactly on an empty heap; otherwise the old root, which has the most likes, is removed from the contents and heap order is kept |
| TrendingHeap.LastToRoot | dsa.js:132-140 | moving the last entry to the root leaves a heap except below the root |
| TrendingHeap.LastToRootContents | dsa.js:132-140 | that move removes exactly the old root from the contents |
| TrendingHeap.MaxHeap.BubbleDown | dsa.js:146-169 | from subtrees that are heaps except at `index`: heaps again, with the same contents and length |
| TrendingHeap.SwapDownStep | dsa.js:146-169 | one swap with the larger child moves the only disorder one level down |
| TrendingHeap.DownDone | dsa.js:162 | once neither child beats the node, the subtrees are heaps |
| TrendingHeap.MaxHeap.Rebuild | dsa.js:175-181 | the heap holds exactly the given movies, in heap order |
| TrendingHeap.RootIsMax | dsa.js:198-200 | the root of a heap has at least the likes of every entry |
| TrendingHeap.RootDominates | dsa.js:198-200 | the root of a heap has at least the likes of every member |
| TrendingHeap.MaxHeap.Peek | dsa.js:198-200 | `None` exactly on an empty heap; otherwise the root, which in a valid heap has the most likes |
| TrendingHeap.MaxHeap.Size | dsa.js:206-208 | the number of movies held, counted with multiplicity |
| TrendingHeap.MaxHeap.IsEmpty | dsa.js:214-216 | true exactly when the heap holds no movie |
| TrendingHeap.MaxHeap.GetTopK | dsa.js:188-192 | the length follows `slice(0, min(k, n))`, so a negative `k` counts back from the end; the result is drawn from the heap in non-increasing likes, and nothing left out has more likes than an entry taken |
| TrendingHeap.LikesFirstIsTotalPreorder | dsa.js:190 | the comparator `b.likes - a.likes` orders any two movies, transitively |
| TrendingHeap.SortedByLikes | dsa.js:189-190 | the sorted copy is in non-increasing likes |
| TrendingHeap.PrefixIsTop | dsa.js:191 | a prefix of a list in non-increasing likes holds the most-liked entries |
| TrendingHeap.PrefixDescending | dsa.js:191 | a prefix of such a list is in non-increasing likes too |
| TrendingHeap.TopKOfSorted | dsa.js:188-192 | the first `end` entries of the sorted copy are the top entries of the heap, most liked first |
| TrendingHeap.SortByPriority | app.js:144-173 | the result is a permutation of the input, in non-increasing likes |
| Sorting.Insert | dsa.js:189-190 | inserting adds exactly one element to the contents |
| Sorting.Sort | dsa.js:393-395 | the sorted copy has the same contents and length as the input |
| Sorting.SortSorted | dsa.js:393-395 | under a total-preorder comparison, the copy is sorted |
| Sorting.InsertSorted | dsa.js:393-395 | inserting into a sorted list keeps it sorted |
| Sorting.SortSameElements | dsa.js:444 | a value is in the sorted copy exactly when it is in the input |
| Hops.ReachMonotone | dsa.js:270-298 | whatever lies within `a` hops also lies within `b >= a` hops |
| Hops.ReachNeighbor | dsa.js:287-291 | a neighbour of a vertex within `k` hops lies within `k + 1` hops |
| Hops.ReachOneStep | dsa.js:319-322 | an id other than the start within one hop of it is one of its neighbours |
| Hops.ReachIsolated | dsa.js:287 | from an id with no neighbour list only the id itself is within reach |
| Hops.NoneBeyondIsolated | dsa.js:287 | no vertex other than such an id is within its reach |
| Hops.ReachInVertices | dsa.js:287 | everything within reach is the start or an id the graph mentions |
| Hops.ReachIsWalks | dsa.js:270-298 | `v` lies within `k` hops exactly when some walk of at most `k` edges leads from the start to `v` |
| Hops.WalkTo | dsa.js:270-298 | every vertex within `k` hops is the end of a walk of at most `k` edges |
| Hops.WalkIsReach | dsa.js:270-298 | the end of a walk of `n` edges is within `n` hops |
| RelationGraph.MovieGraph.constructor | dsa.js:225-227 | a new graph has no vertex and is valid |
| RelationGraph.MovieGraph.AddMovie | dsa.js:233-237 | the id becomes a vertex; an existing vertex and its list are left as they are; validity is kept |
| RelationGraph.WithMovie | dsa.js:233-237 | the keys grow by the id; an existing list is kept, a new id gets an empty list |
| RelationGraph.MovieGraph.AddRelation | dsa.js:243-254 | the new graph is `Relate` of the old one, and validity is kept |
| RelationGraph.Link | dsa.js:248-253 | appending a neighbour never changes the vertex set |
| RelationGraph.RelateNeighbors | dsa.js:243-254 | after relating `a` and `b`, the vertices are the old ones plus `a` and `b`, and `y` is a neighbour of `x` exactly when it was before or `{x, y}` is `{a, b}` |
| RelationGraph.RelateKeepsValid | dsa.js:243-254 | relating two movies keeps the graph symmetric and free of duplicate neighbours |
| RelationGraph.RelateSymmetric | dsa.js:243-254 | relating two movies keeps the graph symmetric |
| RelationGraph.LinkKeepsValid | dsa.js:248-253 | the `includes` test before each `push` keeps the neighbour lists duplicate free |
| RelationGraph.MovieGraph.GetRelatedMovies | dsa.js:260-262 | none for an unknown id; `w` is listed exactly when the two are connected |
| RelationGraph.MovieGraph.Bfs | dsa.js:270-298 | lists exactly the vertices 1 to `maxDepth` hops from the start, each once, in non-decreasing hop distance, and nothing when `maxDepth <= 0` or the start is unknown |
| RelationGraph.EnqueueNeighbors | dsa.js:286-294 | the inner loop adds each unvisited neighbour once, at depth + 1, and keeps the queue invariant |
| RelationGraph.BfsEnqueue | dsa.js:289-291 | enqueuing an unvisited neighbour keeps the queue invariant |
| RelationGraph.BfsCovers | dsa.js:277-295 | every vertex within `k` hops has been discovered once the queue has moved past depth `k` |
| RelationGraph.BfsDone | dsa.js:297 | once the queue is empty, the listed ids are distinct, exclude the start, are exactly those within `maxDepth` hops, and come in non-decreasing hop distance |
| RelationGraph.BfsListsDistinct | dsa.js:281-282 | the listed ids are distinct and exclude the start |
| RelationGraph.BfsListsReach | dsa.js:281-282 | an id is listed exactly when it lies 1 to `maxDepth` hops away |
| RelationGraph.BfsListsAll | dsa.js:281-282 | every vertex 1 to `maxDepth` hops away is listed |
| RelationGraph.BfsListsOnlyReach | dsa.js:281-282 | every listed vertex lies within `maxDepth` hops |
| RelationGraph.BfsOrdered | dsa.js:277-295 | whatever lies within `k` hops, everything listed before it does too |
| RelationGraph.MovieGraph.Dfs | dsa.js:306-329 | nothing for a negative `maxDepth`; each id listed once, never the start, and only within `maxDepth` hops; for `maxDepth >= 1` every neighbour of the start is listed, so for `maxDepth == 1` the list holds exactly the ids one hop away |
| RelationGraph.DfsVisit | dsa.js:310-325 | a visit beyond `maxDepth` changes nothing; otherwise it marks the id, lists it first unless it is the start (depth 0), only appends new ids within reach, keeps every visited id listed, and below `maxDepth` leaves every neighbour visited |
| RelationGraph.DfsNeighbors | dsa.js:319-324 | the loop over the neighbours only appends new, distinct ids within reach, keeps every visited id listed, and below `maxDepth` leaves every neighbour visited |
| RelationGraph.DfsNeighbor | dsa.js:321-323 | a visited neighbour is skipped and nothing changes; below `maxDepth` an unvisited one is listed next and ends up visited |
| RelationGraph.DfsExtendsTrans | dsa.js:310-325 | two visits one after the other still only append new, distinct ids within reach |
| RelationGraph.MovieGraph.GetNeighbors | dsa.js:335-337 | the id's list, or none for an unknown id; in a valid graph no duplicates, and every neighbour lists the id back |
| RelationGraph.MovieGraph.AreConnected | dsa.js:343-346 | true exactly when `id2` is in `id1`'s list; in a valid graph, exactly when `id1` is in `id2`'s |
| RelationGraph.MovieGraph.GetDegree | dsa.js:352-354 | 0 for an unknown id; in a valid graph, the number of distinct related movies |
| RelationGraph.DegreeCountsNeighbors | dsa.js:352-354 | in a duplicate-free graph, a list's length is its number of distinct members |
| RelationGraph.DistinctCount | dsa.js:352-354 | a list without duplicates has as many members as entries |
| RelationGraph.MovieGraph.GetVertexCount | dsa.js:360-362 | the number of vertices |
| RelationGraph.MovieGraph.GetEdgeCount | dsa.js:368-375 | twice the result is the total length of the neighbour lists |
| RelationGraph.DegreeSumRemove | dsa.js:370-372 | the total does not depend on the order the lists are visited in |
| Text.Lower | dsa.js:397 | same length; each character lower-cased |
| Text.LowerCharIsLower | dsa.js:397 | a lower-cased character is not an upper-case letter, and lower-casing it again changes nothing |
| Text.LowerIdempotent | dsa.js:397 | lower-casing twice is lower-casing once |
| Text.IncludesIsOccurrence | dsa.js:406 | `s.includes(t)` exactly when `t` occurs in `s` at some offset |
| Text.LessIrreflexive | dsa.js:426 | no string comes before itself |
| Text.LessTransitive | dsa.js:426 | string order is transitive |
| Text.LessTotal | dsa.js:426 | of two different strings, one comes before the other |
| MovieSearch.FilterMatching | dsa.js:434-436 | each movie's count in the result is its count in the input if its title matches, else zero; members are exactly the matching movies of the input |
| MovieSearch.LessAsymmetric | dsa.js:393-395 | no two strings come before each other |
| MovieSearch.NotLessTransitive | dsa.js:393-395 | "not after" is transitive |
| MovieSearch.TitleOrderIsTotal | dsa.js:393-395 | the title comparison orders any two movies, transitively |
| MovieSearch.TitleSortedCopy | dsa.js:393-395 | the title-sorted copy is in title order |
| MovieSearch.RunSound | dsa.js:408-424 | a maximal matching block of the sorted copy is non-empty and holds only matching movies of the input |
| MovieSearch.CollectAround | dsa.js:408-424 | from a matching entry, collects exactly the maximal block of consecutive matching entries around it, in order |
| MovieSearch.SearchByTitle | dsa.js:391-437 | every result is a matching movie of the input; the result is empty exactly when no movie matches; the result is either the filter of the input or a maximal matching block of the sorted copy |
| MovieSearch.RatingOrderIsTotal | dsa.js:444 | the rating comparison orders any two movies, transitively |
| MovieSearch.RatingSortedCopy | dsa.js:444 | the rating-sorted copy is in non-decreasing rating |
| MovieSearch.SearchByRating | dsa.js:443-461 | a found movie is from the input and has the target rating; `None` exactly when no movie has it |

## Left out

- Only the `id`, `title`, `rating` and `likes` fields of a movie are modelled. The heap, the searches and the graph read no other field.
- `rating` is an integer (for example, tenths of a star) rather than a JavaScript number. Floating-point rounding is not modelled, and `===` on ratings is exact integer equality.
- `GetEdgeCount` returns a `real`: the JavaScript number `count / 2` without rounding. Its order of visiting the map is arbitrary, and the result is proved not to depend on it.
- `Text.Lower` lower-cases ASCII letters only. Full Unicode case mapping in `toLowerCase` is not modelled.
- `MovieSearch.TitleOrderIsTotal`: the comparator `localeCompare` is modelled as the code-point order `Text.Less`. Locale-aware collation is not modelled.
- `Text.Less` compares strings by Unicode code point, because a Dafny `char` is a scalar value. JavaScript's `<` compares UTF-16 code units. The two agree on strings without characters above U+FFFF. They differ when such a character meets one from U+E000 to U+FFFF: `"\uFFFD" < "\u{1F600}"` is false in JavaScript but true in the model.
- `Sorting.Sort` is a stable insertion sort. It stands for the engine's `Array.prototype.sort` (stable since ES2019); only its contents and order are stated, not its algorithm or complexity.
- The model does not capture aliasing. `getRelatedMovies` and `getNeighbors` hand out the live neighbour array, `rebuild` and `getTopK` copy arrays of shared movie objects, and `Stack.push` stores a reference. The model passes values, so a caller mutating a returned array or movie object is not modelled.
- `RelationGraph.MovieGraph.Dfs` states soundness for every depth, and completeness only for the first hop. Every neighbour of the start is listed when `maxDepth >= 1`, so the result is exact for `maxDepth == 1`. Beyond one hop the code is not complete, so no completeness is stated there. A vertex first reached along a long path is marked visited and is not re-entered from a shorter one. Example: edges 1-2, 2-3, 1-3, 3-4 (lists `1:[2,3]`, `2:[1,3]`, `3:[2,1,4]`, `4:[3]`) with `maxDepth` 2 give `[2, 3]`, while 4 lies two hops from 1. This is the usual behaviour of a depth-limited DFS with a global visited set, so it is recorded here rather than as a defect.
- `MovieSearch.SearchByTitle`: on the binary-search path only soundness and maximality of the returned block are stated. The block need not hold every matching movie, because substring matches are not contiguous in title order. The "empty exactly when nothing matches" and "filter" parts hold in full.
- `sortMoviesByPriority` builds copies of the movies with an extra `priority` field (likes plus twice the views). The heap never reads it, so `TrendingHeap.SortByPriority` inserts the movies themselves and orders them by likes, as the heap does. The console timing and log lines are left out.
- The default `maxDepth = 2` of `bfs` and `dfs` is not modelled; callers pass the depth explicitly.
- Everything outside the data-structure core is not part of this model: the page's rendering and event code in `app.js`, and the fake API module.
- `HistoryStack.HistoryScenario` is a worked example of the watch-history use (push A, B, C; `getAll`; pop). It checks concrete assertions and states no contract of its own.
