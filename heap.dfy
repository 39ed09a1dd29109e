/** The trending heap: an array-backed binary max-heap keyed on `likes`.
    Node `i` has children `2i+1` and `2i+2` and parent `(i-1)/2`. */
module TrendingHeap {
  import opened Wrappers
  import opened Catalog
  import Sorting

  /** The edge from node `i` to its parent is in heap order. */
  ghost predicate ParentDominates(s: seq<Movie>, i: int) {
    0 < i < |s| ==> s[(i - 1) / 2].likes >= s[i].likes
  }

  /** Every node's like count is at least its children's. */
  ghost predicate IsMaxHeap(s: seq<Movie>) {
    forall i :: 0 < i < |s| ==> ParentDominates(s, i)
  }

  /** The heap order holds below the nodes `lo..`: every child whose parent
      is at index `lo` or later is dominated by it. `HeapFrom(s, 0)` is
      `IsMaxHeap(s)`. */
  ghost predicate HeapFrom(s: seq<Movie>, lo: nat) {
    forall i :: 0 < i < |s| && lo <= (i - 1) / 2 ==> ParentDominates(s, i)
  }

  /** The state while `bubbleUp` climbs from `k`: the order holds on every
      edge except the one from `k` to its parent, and `k`'s parent already
      dominates `k`'s children. */
  ghost predicate HeapExceptUp(s: seq<Movie>, k: nat) {
    && (forall i :: 0 < i < |s| && i != k ==> ParentDominates(s, i))
    && (0 < k < |s| ==>
          forall c :: 0 < c < |s| && (c - 1) / 2 == k ==> s[(k - 1) / 2].likes >= s[c].likes)
  }

  /** The state while `bubbleDown` sinks `k` inside the subtrees rooted at
      `lo..`: the order holds on every edge below `lo` except the two from
      `k` to its children, and `k`'s parent (when it lies in that range)
      dominates `k`'s children. */
  ghost predicate HeapFromExcept(s: seq<Movie>, lo: nat, k: nat) {
    && (forall i :: 0 < i < |s| && lo <= (i - 1) / 2 && (i - 1) / 2 != k ==> ParentDominates(s, i))
    && (0 < k < |s| && lo <= (k - 1) / 2 ==>
          forall c :: 0 < c < |s| && (c - 1) / 2 == k ==> s[(k - 1) / 2].likes >= s[c].likes)
  }

  /** Exchanges two entries, as the destructuring assignment in the source. */
  function Swap(s: seq<Movie>, i: nat, j: nat): (r: seq<Movie>)
    requires i < |s| && j < |s|
    ensures |r| == |s| && r[i] == s[j] && r[j] == s[i]
    ensures forall k :: 0 <= k < |s| && k != i && k != j ==> r[k] == s[k]
    ensures multiset(r) == multiset(s)
  {
    s[i := s[j]][j := s[i]]
  }

  /** The root of a max-heap has the largest like count. */
  lemma {:induction false} RootIsMax(s: seq<Movie>, j: nat)
    requires IsMaxHeap(s) && j < |s|
    ensures s[0].likes >= s[j].likes
    decreases j
  {
    if j > 0 {
      assert ParentDominates(s, j);
      RootIsMax(s, (j - 1) / 2);
    }
  }

  lemma RootDominates(s: seq<Movie>)
    requires IsMaxHeap(s) && s != []
    ensures forall x :: x in s ==> x.likes <= s[0].likes
  {
    forall x | x in s ensures x.likes <= s[0].likes {
      var j :| 0 <= j < |s| && s[j] == x;
      RootIsMax(s, j);
    }
  }

  lemma RootDominatesWhenHeap(s: seq<Movie>)
    requires s != []
    ensures IsMaxHeap(s) ==> forall x :: x in s ==> x.likes <= s[0].likes
  {
    if IsMaxHeap(s) {
      RootDominates(s);
    }
  }

  /** One step of `bubbleUp`: swapping a node that beats its parent moves
      the single disorder one level up. */
  lemma SwapUpStep(s: seq<Movie>, k: nat)
    requires 0 < k < |s| && HeapExceptUp(s, k)
    requires s[k].likes > s[(k - 1) / 2].likes
    ensures HeapExceptUp(Swap(s, k, (k - 1) / 2), (k - 1) / 2)
  {
    var p := (k - 1) / 2;
    var t := Swap(s, k, p);
    forall i | 0 < i < |t| && i != p ensures ParentDominates(t, i) {
      var q := (i - 1) / 2;
      if i == k {
      } else if q == k {
        assert t[i] == s[i];
      } else if q == p {
        assert ParentDominates(s, i);
        assert t[i] == s[i];
      } else {
        assert ParentDominates(s, i);
        assert t[i] == s[i] && t[q] == s[q];
      }
    }
    if 0 < p {
      forall c | 0 < c < |t| && (c - 1) / 2 == p ensures t[(p - 1) / 2].likes >= t[c].likes {
        var g := (p - 1) / 2;
        assert t[g] == s[g];
        assert ParentDominates(s, p);
        if c != k {
          assert ParentDominates(s, c);
          assert t[c] == s[c];
        }
      }
    }
  }

  /** `bubbleUp` stops once the node no longer beats its parent. */
  lemma UpDone(s: seq<Movie>, k: nat)
    requires k < |s| && HeapExceptUp(s, k)
    requires k > 0 ==> s[k].likes <= s[(k - 1) / 2].likes
    ensures IsMaxHeap(s)
  {
  }

  /** One step of `bubbleDown`: swapping a node with its larger child, when
      that child beats it, moves the single disorder one level down. */
  lemma SwapDownStep(s: seq<Movie>, lo: nat, k: nat, c: nat)
    requires lo <= k && c < |s| && HeapFromExcept(s, lo, k)
    requires c == 2 * k + 1 || c == 2 * k + 2
    requires s[c].likes > s[k].likes
    requires 2 * k + 1 < |s| ==> s[2 * k + 1].likes <= s[c].likes
    requires 2 * k + 2 < |s| ==> s[2 * k + 2].likes <= s[c].likes
    ensures HeapFromExcept(Swap(s, k, c), lo, c)
  {
    var t := Swap(s, k, c);
    assert (c - 1) / 2 == k;
    forall i | 0 < i < |t| && lo <= (i - 1) / 2 && (i - 1) / 2 != c
      ensures ParentDominates(t, i)
    {
      var q := (i - 1) / 2;
      if i == c {
      } else if q == k {
        assert t[i] == s[i];
      } else if i == k {
        assert t[q] == s[q];
      } else {
        assert ParentDominates(s, i);
        assert t[i] == s[i] && t[q] == s[q];
      }
    }
    forall d | 0 < d < |t| && (d - 1) / 2 == c ensures t[k].likes >= t[d].likes {
      assert ParentDominates(s, d);
      assert t[d] == s[d];
    }
  }

  /** `bubbleDown` stops once neither child beats the node. */
  lemma DownDone(s: seq<Movie>, lo: nat, k: nat)
    requires k < |s| && HeapFromExcept(s, lo, k)
    requires 2 * k + 1 < |s| ==> s[2 * k + 1].likes <= s[k].likes
    requires 2 * k + 2 < |s| ==> s[2 * k + 2].likes <= s[k].likes
    ensures HeapFrom(s, lo)
  {
    forall i | 0 < i < |s| && lo <= (i - 1) / 2 ensures ParentDominates(s, i) {
      if (i - 1) / 2 == k {
        assert i == 2 * k + 1 || i == 2 * k + 2;
      }
    }
  }

  /** Appending to a heap leaves a heap except at the new last node. */
  lemma AppendToHeap(s: seq<Movie>, x: Movie)
    requires IsMaxHeap(s)
    ensures HeapExceptUp(s + [x], |s|)
  {
    var t := s + [x];
    forall i | 0 < i < |t| && i != |s| ensures ParentDominates(t, i) {
      assert ParentDominates(s, i);
    }
  }

  /** Moving the last entry to the root of a heap leaves a heap except at
      the root. */
  lemma LastToRoot(s: seq<Movie>)
    requires IsMaxHeap(s) && |s| >= 2
    ensures HeapFromExcept([s[|s| - 1]] + s[1..|s| - 1], 0, 0)
  {
    var t := [s[|s| - 1]] + s[1..|s| - 1];
    forall i | 0 < i < |t| && (i - 1) / 2 != 0 ensures ParentDominates(t, i) {
      assert ParentDominates(s, i);
      assert t[i] == s[i] && t[(i - 1) / 2] == s[(i - 1) / 2];
    }
  }

  /** Removing the root of a heap as `extractMax` does leaves the other
      entries: the old contents are the new ones plus the root. */
  lemma LastToRootContents(s: seq<Movie>)
    requires |s| >= 2
    ensures multiset(s) == multiset([s[|s| - 1]] + s[1..|s| - 1]) + multiset{s[0]}
  {
    assert s == [s[0]] + s[1..|s| - 1] + [s[|s| - 1]];
  }

  /** The length of `slice(0, end)` on a list of `n` elements: a negative
      end counts back from the end of the list. */
  function SliceEnd(end: int, n: nat): nat {
    if end < 0 then (if n + end > 0 then n + end else 0)
    else if end < n then end else n
  }

  /** Most likes first. */
  ghost predicate LikesDescending(s: seq<Movie>) {
    forall i, j :: 0 <= i < j < |s| ==> s[i].likes >= s[j].likes
  }

  /** `r` is drawn from `h`, and nothing of `h` left out of `r` has more
      likes than an entry of `r`. */
  ghost predicate TopOf(h: seq<Movie>, r: seq<Movie>) {
    && multiset(r) <= multiset(h)
    && forall x, y :: x in multiset(h) - multiset(r) && y in r ==> x.likes <= y.likes
  }

  /** The comparison `(a, b) => b.likes - a.likes`: more likes first. */
  function LikesFirst(a: Movie, b: Movie): bool {
    a.likes >= b.likes
  }

  lemma LikesFirstIsTotalPreorder()
    ensures Sorting.TotalPreorder(LikesFirst)
  {
  }

  class MaxHeap {
    /** The backing array; a heap in heap order after every public call. */
    var heap: seq<Movie>

    ghost predicate Valid()
      reads this
    {
      IsMaxHeap(heap)
    }

    constructor ()
      ensures heap == [] && Valid()
    {
      heap := [];
    }

    /** Appends `movie` and restores the heap order. */
    method Insert(movie: Movie)
      requires Valid()
      modifies this
      ensures Valid()
      ensures |heap| == |old(heap)| + 1
      ensures multiset(heap) == multiset(old(heap)) + multiset{movie}
    {
      AppendToHeap(heap, movie);
      heap := heap + [movie];
      BubbleUp(|heap| - 1);
    }

    /** Moves the entry at `index` up while it has more likes than its
        parent. */
    method BubbleUp(index: nat)
      requires index < |heap| && HeapExceptUp(heap, index)
      modifies this
      ensures IsMaxHeap(heap)
      ensures |heap| == |old(heap)| && multiset(heap) == multiset(old(heap))
    {
      var i: nat := index;
      while i > 0
        invariant i < |heap| && HeapExceptUp(heap, i)
        invariant |heap| == |old(heap)| && multiset(heap) == multiset(old(heap))
      {
        var parentIndex := (i - 1) / 2;
        if heap[i].likes <= heap[parentIndex].likes {
          break;
        }
        SwapUpStep(heap, i);
        heap := Swap(heap, i, parentIndex);
        i := parentIndex;
      }
      UpDone(heap, i);
    }

    /** Removes and returns an entry with the most likes, or `None` when the
        heap is empty. */
    method ExtractMax() returns (r: Option<Movie>)
      requires Valid()
      modifies this
      ensures Valid()
      ensures old(heap) == [] <==> r == None
      ensures old(heap) == [] ==> heap == []
      ensures r.Some? ==>
                && r.value == old(heap)[0]
                && |heap| == |old(heap)| - 1
                && multiset(old(heap)) == multiset(heap) + multiset{r.value}
                && forall x :: x in heap ==> x.likes <= r.value.likes
    {
      if |heap| == 0 {
        return None;
      }
      RootDominates(heap);
      if |heap| == 1 {
        r := Some(heap[0]);
        heap := [];
        return;
      }
      var max := heap[0];
      ghost var before := heap;
      LastToRoot(heap);
      LastToRootContents(heap);
      heap := [heap[|heap| - 1]] + heap[1..|heap| - 1];
      BubbleDown(0, 0);
      r := Some(max);
      forall x | x in heap ensures x in before {
        assert x in multiset(heap);
      }
    }

    /** Moves the entry at `index` down, swapping it with its larger child
        while that child has more likes. `lo` is a proof-only bound: the
        subtrees at `lo..` are heaps except at `index`. */
    method BubbleDown(index: nat, ghost lo: nat)
      requires lo <= index < |heap| && HeapFromExcept(heap, lo, index)
      modifies this
      ensures HeapFrom(heap, lo)
      ensures |heap| == |old(heap)| && multiset(heap) == multiset(old(heap))
    {
      var i: nat := index;
      while true
        invariant lo <= i < |heap| && HeapFromExcept(heap, lo, i)
        invariant |heap| == |old(heap)| && multiset(heap) == multiset(old(heap))
        decreases |heap| - i
      {
        var largest := i;
        var leftChild := 2 * i + 1;
        var rightChild := 2 * i + 2;
        if leftChild < |heap| && heap[leftChild].likes > heap[largest].likes {
          largest := leftChild;
        }
        if rightChild < |heap| && heap[rightChild].likes > heap[largest].likes {
          largest := rightChild;
        }
        if largest == i {
          DownDone(heap, lo, i);
          break;
        }
        SwapDownStep(heap, lo, i, largest);
        heap := Swap(heap, i, largest);
        i := largest;
      }
    }

    /** Replaces the contents with a copy of `movies` and heapifies it
        bottom-up, from the last internal node back to the root. */
    method Rebuild(movies: seq<Movie>)
      modifies this
      ensures Valid()
      ensures |heap| == |movies| && multiset(heap) == multiset(movies)
    {
      heap := movies;
      var i := |heap| / 2 - 1;
      while i >= 0
        invariant -1 <= i < |heap| / 2
        invariant HeapFrom(heap, i + 1)
        invariant |heap| == |movies| && multiset(heap) == multiset(movies)
      {
        BubbleDown(i, i);
        i := i - 1;
      }
    }

    /** Up to `k` entries with the most likes, most liked first, without
        changing the heap. A negative `k` is an end index counted back
        from the end, as `slice` reads it. */
    function GetTopK(k: int): (r: seq<Movie>)
      reads this
      ensures |r| == if k >= 0 then (if k < |heap| then k else |heap|)
                     else (if |heap| + k > 0 then |heap| + k else 0)
      ensures LikesDescending(r)
      ensures TopOf(heap, r)
    {
      var end := SliceEnd(if k < |heap| then k else |heap|, |heap|);
      TopKOfSorted(heap, end);
      Sorting.Sort(heap, LikesFirst)[..end]
    }

    /** The root, an entry with the most likes, or `None` when empty. */
    function Peek(): (r: Option<Movie>)
      reads this
      ensures r.None? <==> heap == []
      ensures r.Some? ==> r.value == heap[0]
      ensures r.Some? && Valid() ==> forall x :: x in heap ==> x.likes <= r.value.likes
    {
      if |heap| > 0 then
        RootDominatesWhenHeap(heap);
        Some(heap[0])
      else None
    }

    function Size(): (r: nat)
      reads this
      ensures r == |multiset(heap)|
    {
      |heap|
    }

    function IsEmpty(): (r: bool)
      reads this
      ensures r <==> multiset(heap) == multiset{}
    {
      |heap| == 0
    }
  }

  /** The copy `getTopK` sorts is in non-increasing like order. */
  lemma SortedByLikes(h: seq<Movie>)
    ensures LikesDescending(Sorting.Sort(h, LikesFirst))
  {
    var s := Sorting.Sort(h, LikesFirst);
    LikesFirstIsTotalPreorder();
    Sorting.SortSorted(h, LikesFirst);
    forall i, j | 0 <= i < j < |s| ensures s[i].likes >= s[j].likes {
      assert LikesFirst(s[i], s[j]);
    }
  }

  /** A prefix of a list in non-increasing like order holds entries with
      at least as many likes as anything after it. */
  lemma PrefixIsTop(s: seq<Movie>, end: nat)
    requires end <= |s| && LikesDescending(s)
    ensures TopOf(s, s[..end])
  {
    var r := s[..end];
    assert s == r + s[end..];
    assert multiset(s) - multiset(r) == multiset(s[end..]);
    forall x, y | x in multiset(s) - multiset(r) && y in r ensures x.likes <= y.likes {
      assert x in s[end..];
      var a :| end <= a < |s| && s[a] == x;
      var b :| 0 <= b < end && s[b] == y;
    }
  }

  /** Being the top entries depends only on the contents of the whole. */
  lemma TopOfSameContents(h: seq<Movie>, s: seq<Movie>, r: seq<Movie>)
    requires multiset(h) == multiset(s) && TopOf(s, r)
    ensures TopOf(h, r)
  {
  }

  lemma PrefixDescending(s: seq<Movie>, end: nat)
    requires end <= |s| && LikesDescending(s)
    ensures LikesDescending(s[..end])
  {
    var r := s[..end];
    forall i, j | 0 <= i < j < |r| ensures r[i].likes >= r[j].likes {
      assert r[i] == s[i] && r[j] == s[j];
    }
  }

  /** The first `end` entries of the copy sorted by likes are entries with
      the most likes, most first. */
  lemma TopKOfSorted(h: seq<Movie>, end: nat)
    requires end <= |h|
    ensures LikesDescending(Sorting.Sort(h, LikesFirst)[..end])
    ensures TopOf(h, Sorting.Sort(h, LikesFirst)[..end])
  {
    var s := Sorting.Sort(h, LikesFirst);
    SortedByLikes(h);
    PrefixDescending(s, end);
    PrefixIsTop(s, end);
    TopOfSameContents(h, s, s[..end]);
  }

  /** The priority sort of the catalog page: insert every movie into a
      fresh heap, then extract until empty. The result is a permutation of
      the input in non-increasing like order. */
  method SortByPriority(movieList: seq<Movie>) returns (sorted: seq<Movie>)
    ensures multiset(sorted) == multiset(movieList)
    ensures forall i, j :: 0 <= i < j < |sorted| ==> sorted[i].likes >= sorted[j].likes
  {
    var priorityHeap := new MaxHeap();
    for n := 0 to |movieList|
      invariant priorityHeap.Valid()
      invariant multiset(priorityHeap.heap) == multiset(movieList[..n])
    {
      assert movieList[..n + 1] == movieList[..n] + [movieList[n]];
      priorityHeap.Insert(movieList[n]);
    }
    assert movieList[..|movieList|] == movieList;
    sorted := [];
    while priorityHeap.Size() > 0
      invariant priorityHeap.Valid()
      invariant multiset(sorted) + multiset(priorityHeap.heap) == multiset(movieList)
      invariant forall i, j :: 0 <= i < j < |sorted| ==> sorted[i].likes >= sorted[j].likes
      invariant forall i, x :: 0 <= i < |sorted| && x in priorityHeap.heap ==> sorted[i].likes >= x.likes
      decreases |priorityHeap.heap|
    {
      ghost var before := priorityHeap.heap;
      var m := priorityHeap.ExtractMax();
      forall x | x in priorityHeap.heap ensures x in before {
        assert x in multiset(priorityHeap.heap);
        assert x in multiset(before);
      }
      assert m.value in before by {
        assert m.value in multiset(before);
      }
      sorted := sorted + [m.value];
    }
  }
}
