/** The relation graph: an undirected graph of movie identifiers kept as
    an adjacency list, with depth-bounded breadth-first and depth-first
    traversals. */
module RelationGraph {
  import opened Hops

  ghost predicate NoDuplicates(s: seq<int>) {
    forall i, j :: 0 <= i < j < |s| ==> s[i] != s[j]
  }

  /** If `a` lists `b`, then `b` is a vertex and lists `a`. */
  ghost predicate Symmetric(m: Adjacency) {
    forall a, b :: a in m && b in m[a] ==> b in m && a in m[b]
  }

  ghost predicate DuplicateFree(m: Adjacency) {
    forall a :: a in m ==> NoDuplicates(m[a])
  }

  /** `m` with `id` as a vertex: an existing list is kept, a new id gets an
      empty one. */
  function WithMovie(m: Adjacency, id: int): (r: Adjacency)
    ensures r.Keys == m.Keys + {id}
    ensures id in m ==> r == m
    ensures id !in m ==> r[id] == [] && forall a :: a in m ==> r[a] == m[a]
  {
    if id in m then m else m[id := []]
  }

  /** `m` with `b` appended to the list of `a` unless it is already there. */
  function Link(m: Adjacency, a: int, b: int): (r: Adjacency)
    requires a in m
    ensures r.Keys == m.Keys
  {
    if b in m[a] then m else m[a := m[a] + [b]]
  }

  /** `m` with `a` and `b` as vertices, each listing the other once. */
  function Relate(m: Adjacency, a: int, b: int): Adjacency {
    var m' := WithMovie(WithMovie(m, a), b);
    Link(Link(m', a, b), b, a)
  }

  /** Relating `a` and `b` adds exactly the two directed links between them
      and the two vertices. */
  lemma RelateNeighbors(m: Adjacency, a: int, b: int)
    ensures Relate(m, a, b).Keys == m.Keys + {a, b}
    ensures forall x, y :: y in Neighbors(Relate(m, a, b), x) <==>
              (y in Neighbors(m, x) || (x == a && y == b) || (x == b && y == a))
  {
    var m' := WithMovie(WithMovie(m, a), b);
    assert forall x :: Neighbors(m', x) == Neighbors(m, x);
  }

  /** Relating two movies keeps the graph undirected and duplicate free. */
  lemma RelateKeepsValid(m: Adjacency, a: int, b: int)
    requires Symmetric(m) && DuplicateFree(m)
    ensures Symmetric(Relate(m, a, b)) && DuplicateFree(Relate(m, a, b))
  {
    RelateSymmetric(m, a, b);
    var m' := WithMovie(WithMovie(m, a), b);
    LinkKeepsValid(m', a, b);
    LinkKeepsValid(Link(m', a, b), b, a);
  }

  lemma RelateSymmetric(m: Adjacency, a: int, b: int)
    requires Symmetric(m)
    ensures Symmetric(Relate(m, a, b))
  {
    var r := Relate(m, a, b);
    RelateNeighbors(m, a, b);
    forall x, y | x in r && y in r[x] ensures y in r && x in r[y] {
      assert y in Neighbors(r, x);
      assert x in Neighbors(r, y);
    }
  }

  lemma DistinctCount(s: seq<int>)
    requires NoDuplicates(s)
    ensures |set w | w in s| == |s|
  {
    if s != [] {
      var t := s[..|s| - 1];
      var x := s[|s| - 1];
      assert NoDuplicates(t);
      DistinctCount(t);
      assert (set w | w in s) == (set w | w in t) + {x};
      assert x !in t;
    }
  }

  lemma DegreeCountsNeighbors(m: Adjacency, id: int)
    ensures DuplicateFree(m) ==> |Neighbors(m, id)| == |set w | w in Neighbors(m, id)|
  {
    if DuplicateFree(m) && id in m {
      DistinctCount(m[id]);
    }
  }

  lemma HasMember(s: set<int>)
    ensures s == {} || exists k :: k in s
  {
    if forall k :: k !in s {
      assert s == {};
    }
  }

  /** Sum of the neighbour-list lengths over `keys`. */
  ghost function DegreeSum(m: Adjacency, keys: set<int>): nat
    requires keys <= m.Keys
  {
    if keys == {} then 0
    else
      HasMember(keys);
      var k :| k in keys;
      |m[k]| + DegreeSum(m, keys - {k})
  }

  /** The sum does not depend on the order the lists are visited in. */
  lemma {:induction false} DegreeSumRemove(m: Adjacency, keys: set<int>, k: int)
    requires keys <= m.Keys && k in keys
    ensures DegreeSum(m, keys) == |m[k]| + DegreeSum(m, keys - {k})
    decreases |keys|
  {
    var j :| j in keys && DegreeSum(m, keys) == |m[j]| + DegreeSum(m, keys - {j});
    if j != k {
      DegreeSumRemove(m, keys - {j}, k);
      DegreeSumRemove(m, keys - {k}, j);
      assert keys - {j} - {k} == keys - {k} - {j};
    }
  }

  /** The ids of a list of queue entries, as a set. */
  ghost function IdSet(e: seq<(int, int)>): set<int> {
    if e == [] then {} else IdSet(e[..|e| - 1]) + {e[|e| - 1].0}
  }

  lemma {:induction false} IdSetHas(e: seq<(int, int)>, i: nat)
    requires i < |e|
    ensures e[i].0 in IdSet(e)
    decreases |e|
  {
    if i < |e| - 1 {
      IdSetHas(e[..|e| - 1], i);
    }
  }

  lemma {:induction false} IdSetWitness(e: seq<(int, int)>, x: int) returns (i: nat)
    requires x in IdSet(e)
    ensures i < |e| && e[i].0 == x
    decreases |e|
  {
    if x == e[|e| - 1].0 {
      i := |e| - 1;
    } else {
      i := IdSetWitness(e[..|e| - 1], x);
    }
  }

  /** A queue entry's depth is exactly its vertex's hop distance. */
  ghost predicate ExactDepth(m: Adjacency, start: int, p: (int, int)) {
    && p.1 >= 0
    && p.0 in Reach(m, start, p.1)
    && (p.1 > 0 ==> p.0 !in Reach(m, start, p.1 - 1))
  }

  /** A vertex within `k` hops has hop distance at most `k`. */
  lemma DepthAtMost(m: Adjacency, start: int, p: (int, int), k: nat)
    requires ExactDepth(m, start, p) && p.0 in Reach(m, start, k)
    ensures p.1 <= k
  {
    if p.1 > k {
      ReachMonotoneAt(m, start, k, p.1 - 1, p.0);
    }
  }

  ghost predicate NeighborsIn(m: Adjacency, v: int, s: set<int>) {
    forall w :: w in Neighbors(m, v) ==> w in s
  }

  /** Entry `k` of a breadth-first queue log `e`: its depth is exact, the
      first entry is the start at depth 0, and every later entry has a new
      id, a depth from 1 to `maxDepth` and no smaller a depth than the entry
      before it. */
  ghost predicate EntryOk(m: Adjacency, start: int, maxDepth: int, e: seq<(int, int)>, k: nat) {
    && k < |e|
    && ExactDepth(m, start, e[k])
    && (k == 0 ==> e[k] == (start, 0))
    && (k > 0 ==> 1 <= e[k].1 <= maxDepth && e[k - 1].1 <= e[k].1 && e[k].0 !in IdSet(e[..k]))
  }

  /** Every entry of `e` from index `i` on is as `EntryOk` says. Stated by
      recursion, so that the prover looks at one entry only when asked
      (through `LogAt`). */
  ghost predicate LogFrom(m: Adjacency, start: int, maxDepth: int, e: seq<(int, int)>, i: nat)
    decreases |e| - i
  {
    i >= |e| || (EntryOk(m, start, maxDepth, e, i) && LogFrom(m, start, maxDepth, e, i + 1))
  }

  lemma {:induction false} LogAt(m: Adjacency, start: int, maxDepth: int, e: seq<(int, int)>, i: nat, k: nat)
    requires LogFrom(m, start, maxDepth, e, i) && i <= k < |e|
    ensures EntryOk(m, start, maxDepth, e, k)
    decreases k - i
  {
    if i < k {
      LogAt(m, start, maxDepth, e, i + 1, k);
    }
  }

  lemma {:induction false} LogAll(m: Adjacency, start: int, maxDepth: int, e: seq<(int, int)>, i: nat)
    requires forall k :: i <= k < |e| ==> EntryOk(m, start, maxDepth, e, k)
    ensures LogFrom(m, start, maxDepth, e, i)
    decreases |e| - i
  {
    if i < |e| {
      LogAll(m, start, maxDepth, e, i + 1);
    }
  }

  /** Every entry of `e` before index `h` above the depth bound has all its
      neighbours in `s`. */
  ghost predicate ExpandedBelow(m: Adjacency, maxDepth: int, e: seq<(int, int)>, h: nat, s: set<int>)
    requires h <= |e|
  {
    h == 0 || (ExpandedBelow(m, maxDepth, e, h - 1, s) && (e[h - 1].1 < maxDepth ==> NeighborsIn(m, e[h - 1].0, s)))
  }

  lemma {:induction false} ExpandedBelowAll(m: Adjacency, maxDepth: int, e: seq<(int, int)>, h: nat, s: set<int>)
    requires h <= |e|
    ensures ExpandedBelow(m, maxDepth, e, h, s) <==>
              forall i :: 0 <= i < h && e[i].1 < maxDepth ==> NeighborsIn(m, e[i].0, s)
  {
    if h > 0 {
      ExpandedBelowAll(m, maxDepth, e, h - 1, s);
    }
  }

  /** What holds of `e`, every entry ever put on the breadth-first queue,
      after the first `h` have been taken off and expanded: the entries are
      as `EntryOk` says, the depths from the queue head on span at most two
      levels, and every expanded entry above the depth bound has had all its
      neighbours discovered. */
  ghost predicate BfsInvariant(m: Adjacency, start: int, maxDepth: int, e: seq<(int, int)>, h: nat) {
    && 1 <= |e| && h <= |e| && e[0] == (start, 0)
    && LogFrom(m, start, maxDepth, e, 0)
    && (h < |e| ==> e[|e| - 1].1 <= e[h].1 + 1)
    && ExpandedBelow(m, maxDepth, e, h, IdSet(e))
  }

  /** `BfsInvariant` with its conjuncts stated over all entries. */
  ghost predicate BfsFacts(m: Adjacency, start: int, maxDepth: int, e: seq<(int, int)>, h: nat) {
    && 1 <= |e| && h <= |e| && e[0] == (start, 0)
    && LogFrom(m, start, maxDepth, e, 0)
    && (forall i, j :: 0 <= i < j < |e| ==> e[i].0 != e[j].0)
    && (forall i :: 0 < i < |e| ==> 1 <= e[i].1 <= maxDepth)
    && (forall i, j :: 0 <= i < j < |e| ==> e[i].1 <= e[j].1)
    && (h < |e| ==> forall i :: 0 <= i < |e| ==> e[i].1 <= e[h].1 + 1)
    && (forall i :: 0 <= i < h && e[i].1 < maxDepth ==> NeighborsIn(m, e[i].0, IdSet(e)))
  }

  lemma {:induction false} SortedFromSteps(e: seq<(int, int)>, i: nat, j: nat)
    requires forall k :: 0 < k < |e| ==> e[k - 1].1 <= e[k].1
    requires i <= j < |e|
    ensures e[i].1 <= e[j].1
    decreases j - i
  {
    if i < j {
      SortedFromSteps(e, i, j - 1);
    }
  }

  lemma BfsUnpack(m: Adjacency, start: int, maxDepth: int, e: seq<(int, int)>, h: nat)
    requires BfsInvariant(m, start, maxDepth, e, h)
    ensures BfsFacts(m, start, maxDepth, e, h)
  {
    forall k | 0 <= k < |e|
      ensures EntryOk(m, start, maxDepth, e, k) && (k > 0 ==> e[k - 1].1 <= e[k].1)
    {
      LogAt(m, start, maxDepth, e, 0, k);
    }
    forall i, j | 0 <= i < j < |e| ensures e[i].0 != e[j].0 && e[i].1 <= e[j].1 {
      assert EntryOk(m, start, maxDepth, e, j);
      IdSetHas(e[..j], i);
      assert e[..j][i] == e[i];
      SortedFromSteps(e, i, j);
    }
    forall i | 0 < i < |e| ensures 1 <= e[i].1 <= maxDepth {
      assert EntryOk(m, start, maxDepth, e, i);
    }
    if h < |e| {
      forall i | 0 <= i < |e| ensures e[i].1 <= e[h].1 + 1 {
        assert e[i].1 <= e[|e| - 1].1;
      }
    }
    ExpandedBelowAll(m, maxDepth, e, h, IdSet(e));
  }

  /** The queue holding only the start satisfies the invariant. */
  lemma BfsStart(m: Adjacency, start: int, maxDepth: int)
    ensures BfsInvariant(m, start, maxDepth, [(start, 0)], 0)
  {
    var e := [(start, 0)];
    assert EntryOk(m, start, maxDepth, e, 0);
    LogAll(m, start, maxDepth, e, 0);
  }

  /** Once every entry shallower than `k` has been expanded, everything
      within `k` hops has been discovered. */
  lemma {:induction false} BfsCovers(m: Adjacency, start: int, maxDepth: int, e: seq<(int, int)>, h: nat, k: nat)
    requires 1 <= |e| && e[0] == (start, 0)
    requires LogFrom(m, start, maxDepth, e, 0)
    requires forall i :: 0 <= i < h && i < |e| && e[i].1 < maxDepth ==> NeighborsIn(m, e[i].0, IdSet(e))
    requires k <= maxDepth
    requires forall i :: 0 <= i < |e| && e[i].1 < k ==> i < h
    ensures Reach(m, start, k) <= IdSet(e)
  {
    if k == 0 {
      IdSetHas(e, 0);
    } else {
      BfsCovers(m, start, maxDepth, e, h, k - 1);
      var prev := Reach(m, start, k - 1);
      assert Reach(m, start, k) == prev + Step(m, prev);
      forall w | w in Step(m, prev) ensures w in IdSet(e) {
        CoversStep(m, start, maxDepth, e, h, k, w);
      }
    }
  }

  /** A logged vertex within `k` hops was logged at depth at most `k`. */
  lemma EntryDepthAtMost(m: Adjacency, start: int, maxDepth: int, e: seq<(int, int)>, i: nat, k: nat)
    requires LogFrom(m, start, maxDepth, e, 0) && i < |e| && e[i].0 in Reach(m, start, k)
    ensures e[i].1 <= k
  {
    LogAt(m, start, maxDepth, e, 0, i);
    DepthAtMost(m, start, e[i], k);
  }

  /** One level of `BfsCovers`: a neighbour of a vertex within `k - 1`
      hops has been discovered. */
  lemma CoversStep(m: Adjacency, start: int, maxDepth: int, e: seq<(int, int)>, h: nat, k: nat, w: int)
    requires LogFrom(m, start, maxDepth, e, 0)
    requires forall i :: 0 <= i < h && i < |e| && e[i].1 < maxDepth ==> NeighborsIn(m, e[i].0, IdSet(e))
    requires 0 < k <= maxDepth
    requires forall i :: 0 <= i < |e| && e[i].1 < k ==> i < h
    requires Reach(m, start, k - 1) <= IdSet(e)
    requires w in Step(m, Reach(m, start, k - 1))
    ensures w in IdSet(e)
  {
    var v :| v in Reach(m, start, k - 1) && w in Neighbors(m, v);
    var i := IdSetWitness(e, v);
    EntryDepthAtMost(m, start, maxDepth, e, i, k - 1);
    assert NeighborsIn(m, e[i].0, IdSet(e));
  }

  /** Everything within the head entry's depth has been discovered. */
  lemma BfsCoversHead(m: Adjacency, start: int, maxDepth: int, e: seq<(int, int)>, h: nat)
    requires BfsInvariant(m, start, maxDepth, e, h)
    requires h < |e| && e[h].1 < maxDepth
    ensures e[h].1 >= 0 && Reach(m, start, e[h].1) <= IdSet(e)
  {
    BfsUnpack(m, start, maxDepth, e, h);
    LogAt(m, start, maxDepth, e, 0, h);
    BfsCovers(m, start, maxDepth, e, h, e[h].1);
  }

  /** Appending an entry that is as `EntryOk` says keeps the log. */
  lemma LogAppend(m: Adjacency, start: int, maxDepth: int, e: seq<(int, int)>, x: (int, int))
    requires LogFrom(m, start, maxDepth, e, 0)
    requires EntryOk(m, start, maxDepth, e + [x], |e|)
    ensures LogFrom(m, start, maxDepth, e + [x], 0)
  {
    var e' := e + [x];
    forall k | 0 <= k < |e'| ensures EntryOk(m, start, maxDepth, e', k) {
      if k < |e| {
        LogAt(m, start, maxDepth, e, 0, k);
        assert e'[..k] == e[..k];
      }
    }
    LogAll(m, start, maxDepth, e', 0);
  }

  /** An undiscovered neighbour of the entry being expanded is first seen
      one level deeper. */
  lemma BfsNewEntry(m: Adjacency, start: int, maxDepth: int, e: seq<(int, int)>, h: nat, v: int, d: int, w: int)
    requires BfsInvariant(m, start, maxDepth, e, h)
    requires h < |e| && e[h] == (v, d) && d < maxDepth
    requires w in Neighbors(m, v) && w !in IdSet(e)
    ensures EntryOk(m, start, maxDepth, e + [(w, d + 1)], |e|)
  {
    BfsCoversHead(m, start, maxDepth, e, h);
    var x := (w, d + 1);
    var e' := e + [x];
    LogAt(m, start, maxDepth, e, 0, h);
    ReachNeighbor(m, start, d, v, w);
    assert e'[..|e|] == e;
    assert w !in Reach(m, start, d);
    assert ExactDepth(m, start, x);
    assert e'[|e| - 1].1 <= x.1;
  }

  /** Enqueuing an undiscovered neighbour of the entry being expanded, one
      level deeper, keeps the invariant. */
  lemma BfsEnqueue(m: Adjacency, start: int, maxDepth: int, e: seq<(int, int)>, h: nat, v: int, d: int, w: int)
    requires BfsInvariant(m, start, maxDepth, e, h)
    requires h < |e| && e[h] == (v, d) && d < maxDepth
    requires w in Neighbors(m, v) && w !in IdSet(e)
    ensures BfsInvariant(m, start, maxDepth, e + [(w, d + 1)], h)
    ensures IdSet(e + [(w, d + 1)]) == IdSet(e) + {w}
    ensures (e + [(w, d + 1)])[h + 1..] == e[h + 1..] + [(w, d + 1)]
  {
    var x := (w, d + 1);
    var e' := e + [x];
    BfsNewEntry(m, start, maxDepth, e, h, v, d, w);
    LogAppend(m, start, maxDepth, e, x);
    AppendEntry(e, x, h);
    ExpandedBelowGrow(m, maxDepth, e, e', h, IdSet(e), IdSet(e'));
  }

  lemma AppendEntry(e: seq<(int, int)>, x: (int, int), h: nat)
    requires h < |e|
    ensures IdSet(e + [x]) == IdSet(e) + {x.0}
    ensures (e + [x])[h + 1..] == e[h + 1..] + [x]
  {
    AppendIds(e, x);
    AppendDrop(e, x, h + 1);
  }

  lemma AppendIds(e: seq<(int, int)>, x: (int, int))
    ensures IdSet(e + [x]) == IdSet(e) + {x.0}
  {
    assert (e + [x])[..|e|] == e;
  }

  lemma AppendDrop<T>(e: seq<T>, x: T, k: nat)
    requires k <= |e|
    ensures (e + [x])[k..] == e[k..] + [x]
  {
  }

  lemma {:induction false} ExpandedBelowGrow(m: Adjacency, maxDepth: int, e: seq<(int, int)>, e': seq<(int, int)>,
                                            h: nat, s: set<int>, s': set<int>)
    requires h <= |e| <= |e'| && (forall i :: 0 <= i < h ==> e'[i] == e[i]) && s <= s'
    requires ExpandedBelow(m, maxDepth, e, h, s)
    ensures ExpandedBelow(m, maxDepth, e', h, s')
    decreases h
  {
    if h > 0 {
      ExpandedBelowGrow(m, maxDepth, e, e', h - 1, s, s');
    }
  }

  /** Taking off an entry whose neighbours are all discovered (or that sits
      at the depth bound) keeps the invariant. */
  lemma BfsAdvance(m: Adjacency, start: int, maxDepth: int, e: seq<(int, int)>, h: nat)
    requires BfsInvariant(m, start, maxDepth, e, h)
    requires h < |e|
    requires e[h].1 < maxDepth ==> NeighborsIn(m, e[h].0, IdSet(e))
    ensures BfsInvariant(m, start, maxDepth, e, h + 1)
  {
    if h + 1 < |e| {
      LogAt(m, start, maxDepth, e, 0, h + 1);
    }
  }

  /** The head of the queue is the start, at depth 0, or a later entry at a
      depth from 1 to `maxDepth`. */
  lemma BfsHead(m: Adjacency, start: int, maxDepth: int, e: seq<(int, int)>, h: nat)
    requires BfsInvariant(m, start, maxDepth, e, h) && h < |e|
    ensures h == 0 ==> e[h].1 == 0
    ensures h > 0 ==> 1 <= e[h].1 <= maxDepth
  {
    LogAt(m, start, maxDepth, e, 0, h);
  }

  /** When the queue is empty, the listed vertices (all entries but the
      start) are exactly those 1 to `maxDepth` hops away, each once, in
      non-decreasing hop distance. */
  lemma BfsDone(m: Adjacency, start: int, maxDepth: int, e: seq<(int, int)>, r: seq<int>)
    requires BfsInvariant(m, start, maxDepth, e, |e|)
    requires |r| == |e| - 1 && forall i :: 0 <= i < |r| ==> r[i] == e[i + 1].0
    ensures
      && NoDuplicates(r)
      && start !in r
      && (maxDepth >= 0 ==> forall v :: v in r <==> v in Reach(m, start, maxDepth) && v != start)
      && (maxDepth <= 0 ==> r == [])
      && (forall i, j, k: nat :: 0 <= i < j < |r| && r[j] in Reach(m, start, k) ==> r[i] in Reach(m, start, k))
  {
    BfsListsDistinct(m, start, maxDepth, e, r);
    BfsListsReach(m, start, maxDepth, e, r);
    BfsUnpack(m, start, maxDepth, e, |e|);
    BfsOrdered(m, start, maxDepth, e, r);
  }

  lemma BfsListsDistinct(m: Adjacency, start: int, maxDepth: int, e: seq<(int, int)>, r: seq<int>)
    requires BfsInvariant(m, start, maxDepth, e, |e|)
    requires |r| == |e| - 1 && forall i :: 0 <= i < |r| ==> r[i] == e[i + 1].0
    ensures NoDuplicates(r) && start !in r
  {
    BfsUnpack(m, start, maxDepth, e, |e|);
    forall i | 0 <= i < |r| ensures r[i] != start {
      assert e[0].0 == start;
    }
  }

  lemma BfsListsReach(m: Adjacency, start: int, maxDepth: int, e: seq<(int, int)>, r: seq<int>)
    requires BfsInvariant(m, start, maxDepth, e, |e|)
    requires |r| == |e| - 1 && forall i :: 0 <= i < |r| ==> r[i] == e[i + 1].0
    ensures maxDepth >= 0 ==> forall v :: v in r <==> v in Reach(m, start, maxDepth) && v != start
    ensures maxDepth <= 0 ==> r == []
  {
    BfsUnpack(m, start, maxDepth, e, |e|);
    if maxDepth >= 0 {
      BfsListsAll(m, start, maxDepth, e, r);
      BfsListsOnlyReach(m, start, maxDepth, e, r);
    }
  }

  /** Every vertex within `maxDepth` hops other than the start is listed. */
  lemma BfsListsAll(m: Adjacency, start: int, maxDepth: int, e: seq<(int, int)>, r: seq<int>)
    requires maxDepth >= 0 && BfsInvariant(m, start, maxDepth, e, |e|)
    requires |r| == |e| - 1 && forall i :: 0 <= i < |r| ==> r[i] == e[i + 1].0
    ensures forall v :: v in Reach(m, start, maxDepth) && v != start ==> v in r
  {
    BfsUnpack(m, start, maxDepth, e, |e|);
    BfsCovers(m, start, maxDepth, e, |e|, maxDepth);
    forall v | v in Reach(m, start, maxDepth) && v != start ensures v in r {
      var i := IdSetWitness(e, v);
      assert r[i - 1] == v;
    }
  }

  /** Every listed vertex lies within `maxDepth` hops. */
  lemma BfsListsOnlyReach(m: Adjacency, start: int, maxDepth: int, e: seq<(int, int)>, r: seq<int>)
    requires maxDepth >= 0 && LogFrom(m, start, maxDepth, e, 0)
    requires |r| == |e| - 1 && forall i :: 0 <= i < |r| ==> r[i] == e[i + 1].0
    ensures forall i :: 0 <= i < |r| ==> r[i] in Reach(m, start, maxDepth)
  {
    forall i | 0 <= i < |r| ensures r[i] in Reach(m, start, maxDepth) {
      LogAt(m, start, maxDepth, e, 0, i + 1);
      ReachMonotone(m, start, e[i + 1].1, maxDepth);
    }
  }

  /** Ids listed in order of non-decreasing exact depth: whatever lies
      within `k` hops, everything listed before it does too. */
  lemma BfsOrdered(m: Adjacency, start: int, maxDepth: int, e: seq<(int, int)>, r: seq<int>)
    requires LogFrom(m, start, maxDepth, e, 0)
    requires forall i, j :: 0 <= i < j < |e| ==> e[i].1 <= e[j].1
    requires |r| == |e| - 1 && forall i :: 0 <= i < |r| ==> r[i] == e[i + 1].0
    ensures forall i, j, k: nat :: 0 <= i < j < |r| && r[j] in Reach(m, start, k) ==> r[i] in Reach(m, start, k)
  {
    forall i, j, k: nat | 0 <= i < j < |r| && r[j] in Reach(m, start, k) ensures r[i] in Reach(m, start, k) {
      LogAt(m, start, maxDepth, e, 0, i + 1);
      LogAt(m, start, maxDepth, e, 0, j + 1);
      DepthAtMost(m, start, e[j + 1], k);
      ReachMonotone(m, start, e[i + 1].1, k);
    }
  }

  /** A set holding the start and every listed neighbour: the ids a
      traversal from `start` can ever visit. */
  lemma Universe(m: Adjacency, start: int) returns (u: set<int>)
    ensures start in u
    ensures forall v, w :: w in Neighbors(m, v) ==> w in u
  {
    u := Vertices(m) + {start};
    forall v, w | w in Neighbors(m, v) ensures w in u {
      NeighborIsVertex(m, v, w);
    }
  }

  lemma FewerUnvisited(universe: set<int>, visited: set<int>, x: int)
    requires x in universe && x !in visited
    ensures |universe - (visited + {x})| + 1 == |universe - visited|
  {
    assert universe - visited == (universe - (visited + {x})) + {x};
  }

  /** The inner loop of the breadth-first search: every neighbour of the
      head entry `(currentId, depth)` not yet visited is marked and queued
      one level deeper. `universe` bounds what can ever be visited. */
  method EnqueueNeighbors(m: Adjacency, start: int, maxDepth: int, currentId: int, depth: int,
                          visited: set<int>, queue: seq<(int, int)>,
                          ghost e: seq<(int, int)>, ghost h: nat, ghost universe: set<int>)
    returns (visited': set<int>, queue': seq<(int, int)>, ghost e': seq<(int, int)>)
    requires BfsInvariant(m, start, maxDepth, e, h) && h < |e| && e[h] == (currentId, depth) && depth < maxDepth
    requires visited == IdSet(e) && visited <= universe && queue == e[h + 1..]
    requires forall v, w :: w in Neighbors(m, v) ==> w in universe
    ensures BfsInvariant(m, start, maxDepth, e', h)
    ensures |e| <= |e'| && forall i :: 0 <= i < |e| ==> e'[i] == e[i]
    ensures visited' == IdSet(e') && visited' <= universe && queue' == e'[h + 1..]
    ensures NeighborsIn(m, currentId, visited')
    ensures |universe - visited'| + |queue'| == |universe - visited| + |queue|
  {
    var neighbors := Neighbors(m, currentId);
    visited', queue', e' := visited, queue, e;
    for n := 0 to |neighbors|
      invariant BfsInvariant(m, start, maxDepth, e', h)
      invariant |e| <= |e'| && e'[h] == (currentId, depth)
      invariant forall i :: 0 <= i < |e| ==> e'[i] == e[i]
      invariant visited' == IdSet(e')
      invariant visited' <= universe
      invariant queue' == e'[h + 1..]
      invariant forall j :: 0 <= j < n ==> neighbors[j] in visited'
      invariant |universe - visited'| + |queue'| == |universe - visited| + |queue|
    {
      var neighborId := neighbors[n];
      if neighborId !in visited' {
        BfsEnqueue(m, start, maxDepth, e', h, currentId, depth, neighborId);
        FewerUnvisited(universe, visited', neighborId);
        visited' := visited' + {neighborId};
        queue' := queue' + [(neighborId, depth + 1)];
        e' := e' + [(neighborId, depth + 1)];
      }
    }
  }

  /** What one depth-first visit leaves behind: `visited` only grows,
      `related` only has ids appended, and every appended id is new (not
      visited before, listed once, not the start), is now visited, and lies
      within `maxDepth` hops of `start`. */
  ghost predicate DfsExtends(m: Adjacency, start: int, maxDepth: int,
                             visited: set<int>, related: seq<int>, visited': set<int>, related': seq<int>) {
    && visited <= visited'
    && |related| <= |related'| && related'[..|related|] == related
    && (forall i :: |related| <= i < |related'| ==>
          related'[i] !in visited && related'[i] in visited' && related'[i] != start
          && 0 <= maxDepth && related'[i] in Reach(m, start, maxDepth))
    && (forall i, j :: |related| <= i < j < |related'| ==> related'[i] != related'[j])
  }

  /** Every visited id other than the start has been listed. */
  ghost predicate ListedAll(start: int, visited: set<int>, related: seq<int>) {
    forall v :: v in visited && v != start ==> v in related
  }

  /** Marking `x` keeps every visited id listed when `x` is listed too or
      is the start. */
  lemma ListedAllMark(start: int, visited: set<int>, related: seq<int>, x: int, listed: seq<int>)
    requires ListedAll(start, visited, related)
    requires listed == related + [x] || (listed == related && x == start)
    ensures ListedAll(start, visited + {x}, listed)
  {
  }

  /** An id pushed before a visit stays where it was pushed. */
  lemma DfsExtendsKeeps(m: Adjacency, start: int, maxDepth: int, visited: set<int>, related: seq<int>, x: int,
                        visited': set<int>, related': seq<int>)
    requires DfsExtends(m, start, maxDepth, visited, related + [x], visited', related')
    ensures |related| < |related'| && related'[|related|] == x
  {
    assert related'[..|related| + 1][|related|] == x;
  }

  lemma DfsExtendsTrans(m: Adjacency, start: int, maxDepth: int,
                        v0: set<int>, r0: seq<int>, v1: set<int>, r1: seq<int>, v2: set<int>, r2: seq<int>)
    requires DfsExtends(m, start, maxDepth, v0, r0, v1, r1)
    requires DfsExtends(m, start, maxDepth, v1, r1, v2, r2)
    ensures DfsExtends(m, start, maxDepth, v0, r0, v2, r2)
  {
    assert r2[..|r0|] == r1[..|r1|][..|r0|];
    forall i, j | |r0| <= i < j < |r2| ensures r2[i] != r2[j] {
      if i < |r1| && |r1| <= j {
        assert r2[i] == r1[i];
      } else if j < |r1| {
        assert r2[i] == r1[i] && r2[j] == r1[j];
      }
    }
    forall i | |r0| <= i < |r2|
      ensures r2[i] !in v0 && r2[i] in v2 && r2[i] != start && 0 <= maxDepth && r2[i] in Reach(m, start, maxDepth)
    {
      if i < |r1| {
        assert r2[i] == r1[i];
      }
    }
  }

  lemma DfsExtendsRefl(m: Adjacency, start: int, maxDepth: int, visited: set<int>, related: seq<int>)
    ensures DfsExtends(m, start, maxDepth, visited, related, visited, related)
  {
  }

  /** Adding an unvisited vertex within `maxDepth` hops to both collections. */
  lemma DfsExtendsPush(m: Adjacency, start: int, maxDepth: int, visited: set<int>, related: seq<int>, x: int)
    requires x !in visited && x != start && 0 <= maxDepth && x in Reach(m, start, maxDepth)
    ensures DfsExtends(m, start, maxDepth, visited, related, visited + {x}, related + [x])
  {
  }

  lemma FewerUnvisitedAfter(universe: set<int>, visited: set<int>, visited': set<int>, x: int)
    requires x in universe && x !in visited && visited + {x} <= visited' <= universe
    ensures |universe - visited'| < |universe - visited|
  {
    var big := universe - (visited + {x});
    var small := universe - visited';
    assert big == small + (big - small);
    FewerUnvisited(universe, visited, x);
  }

  /** The recursive helper of the depth-first search, with the shared
      `visited` set and `related` list threaded through it: marks
      `movieId`, lists it unless it is the start, and goes on with its
      neighbours one level deeper; a visit beyond `maxDepth` does nothing. */
  method DfsVisit(m: Adjacency, maxDepth: int, movieId: int, depth: nat,
                  visited: set<int>, related: seq<int>, ghost start: int, ghost universe: set<int>)
    returns (visited': set<int>, related': seq<int>)
    requires movieId !in visited && movieId in universe && visited <= universe
    requires forall v, w :: w in Neighbors(m, v) ==> w in universe
    requires movieId in Reach(m, start, depth)
    requires depth > 0 ==> start in visited
    requires ListedAll(start, visited, related)
    ensures DfsExtends(m, start, maxDepth, visited, related, visited', related')
    ensures visited <= visited' <= universe
    ensures ListedAll(start, visited', related')
    ensures depth <= maxDepth ==> movieId in visited'
    ensures 0 < depth <= maxDepth ==> |related| < |related'| && related'[|related|] == movieId
    ensures depth < maxDepth ==> NeighborsIn(m, movieId, visited')
    ensures depth > maxDepth ==> visited' == visited && related' == related
    decreases |universe - visited|, 1
  {
    if depth > maxDepth {
      return visited, related;
    }
    var marked := visited + {movieId};
    var listed := related;
    if depth > 0 {
      ReachMonotoneAt(m, start, depth, maxDepth, movieId);
      DfsExtendsPush(m, start, maxDepth, visited, related, movieId);
      listed := listed + [movieId];
    } else {
      assert Reach(m, start, 0) == {start};
    }
    ListedAllMark(start, visited, related, movieId, listed);
    FewerUnvisited(universe, visited, movieId);
    visited', related' := DfsNeighbors(m, maxDepth, movieId, depth, marked, listed, start, universe);
    if depth > 0 {
      DfsExtendsKeeps(m, start, maxDepth, marked, related, movieId, visited', related');
    }
    DfsExtendsTrans(m, start, maxDepth, visited, related, marked, listed, visited', related');
  }

  /** The loop of the depth-first helper over the neighbours of `movieId`,
      each visited one level deeper if still unvisited when its turn
      comes. */
  method DfsNeighbors(m: Adjacency, maxDepth: int, movieId: int, depth: nat,
                      visited: set<int>, related: seq<int>, ghost start: int, ghost universe: set<int>)
    returns (visited': set<int>, related': seq<int>)
    requires movieId in visited && start in visited && visited <= universe
    requires forall v, w :: w in Neighbors(m, v) ==> w in universe
    requires movieId in Reach(m, start, depth)
    requires ListedAll(start, visited, related)
    ensures DfsExtends(m, start, maxDepth, visited, related, visited', related')
    ensures visited' <= universe
    ensures ListedAll(start, visited', related')
    ensures depth < maxDepth ==> NeighborsIn(m, movieId, visited')
    decreases |universe - visited|, 3
  {
    visited', related' := visited, related;
    var neighbors := Neighbors(m, movieId);
    for n := 0 to |neighbors|
      invariant DfsExtends(m, start, maxDepth, visited, related, visited', related')
      invariant start in visited' && visited' <= universe
      invariant ListedAll(start, visited', related')
      invariant depth < maxDepth ==> forall j :: 0 <= j < n ==> neighbors[j] in visited'
    {
      SubsetCard(universe - visited', universe - visited);
      ghost var v1, r1 := visited', related';
      visited', related' := DfsNeighbor(m, maxDepth, movieId, depth, neighbors[n], visited', related', start, universe);
      DfsExtendsTrans(m, start, maxDepth, visited, related, v1, r1, visited', related');
    }
  }

  /** One turn of that loop: `neighborId` is visited one level deeper
      unless it is visited already. */
  method DfsNeighbor(m: Adjacency, maxDepth: int, movieId: int, depth: nat, neighborId: int,
                     visited: set<int>, related: seq<int>, ghost start: int, ghost universe: set<int>)
    returns (visited': set<int>, related': seq<int>)
    requires start in visited && visited <= universe
    requires forall v, w :: w in Neighbors(m, v) ==> w in universe
    requires movieId in Reach(m, start, depth) && neighborId in Neighbors(m, movieId)
    requires ListedAll(start, visited, related)
    ensures DfsExtends(m, start, maxDepth, visited, related, visited', related')
    ensures start in visited' && visited' <= universe
    ensures ListedAll(start, visited', related')
    ensures neighborId in visited ==> visited' == visited && related' == related
    ensures neighborId !in visited && depth < maxDepth ==>
              |related| < |related'| && related'[|related|] == neighborId
    ensures depth < maxDepth ==> neighborId in visited'
    decreases |universe - visited|, 2
  {
    if neighborId !in visited {
      ReachNeighbor(m, start, depth, movieId, neighborId);
      visited', related' := DfsVisit(m, maxDepth, neighborId, depth + 1, visited, related, start, universe);
    } else {
      visited', related' := visited, related;
      DfsExtendsRefl(m, start, maxDepth, visited, related);
    }
  }

  /** After the turn of entry `h`, the list holds the ids of entries 1 to
      `h` of the log, whatever the turn appended to the log. */
  lemma ListedAfterTurn(e: seq<(int, int)>, e': seq<(int, int)>, h: nat, related: seq<int>, related': seq<int>)
    requires h < |e| <= |e'| && forall i :: 0 <= i < |e| ==> e'[i] == e[i]
    requires |related| == (if h == 0 then 0 else h - 1)
    requires forall i :: 0 <= i < |related| ==> related[i] == e[i + 1].0
    requires related' == if h == 0 then related else related + [e[h].0]
    ensures |related'| == h && forall i :: 0 <= i < |related'| ==> related'[i] == e'[i + 1].0
  {
  }

  lemma SubsetCard(a: set<int>, b: set<int>)
    requires a <= b
    ensures |a| <= |b|
  {
    assert b == a + (b - a);
  }

  class MovieGraph {
    /** Each movie id mapped to the ids related to it, in insertion order. */
    var adjacencyList: Adjacency

    /** The graph is undirected and lists each neighbour once. */
    ghost predicate Valid()
      reads this
    {
      Symmetric(adjacencyList) && DuplicateFree(adjacencyList)
    }

    constructor ()
      ensures adjacencyList == map[] && Valid()
    {
      adjacencyList := map[];
    }

    /** Adds `id` as a vertex with no neighbours unless it is one already;
        an existing neighbour list is never touched. */
    method AddMovie(id: int)
      requires Valid()
      modifies this
      ensures Valid()
      ensures adjacencyList == WithMovie(old(adjacencyList), id)
      ensures id in adjacencyList
      ensures id in old(adjacencyList) ==> adjacencyList == old(adjacencyList)
    {
      if id !in adjacencyList {
        adjacencyList := adjacencyList[id := []];
      }
    }

    /** Relates `id1` and `id2` in both directions, adding both as
        vertices; a pair already related is left as it is. */
    method AddRelation(id1: int, id2: int)
      requires Valid()
      modifies this
      ensures Valid()
      ensures adjacencyList == Relate(old(adjacencyList), id1, id2)
    {
      ghost var m := adjacencyList;
      AddMovie(id1);
      AddMovie(id2);
      if id2 !in adjacencyList[id1] {
        adjacencyList := adjacencyList[id1 := adjacencyList[id1] + [id2]];
      }
      if id1 !in adjacencyList[id2] {
        adjacencyList := adjacencyList[id2 := adjacencyList[id2] + [id1]];
      }
      RelateKeepsValid(m, id1, id2);
    }

    /** The directly related movies of `id`: its neighbour list, or none
        for an unknown id. */
    function GetRelatedMovies(id: int): (r: seq<int>)
      reads this
      ensures id !in adjacencyList ==> r == []
      ensures forall w :: w in r <==> AreConnected(id, w)
    {
      Neighbors(adjacencyList, id)
    }

    /** The neighbour list of `id`, or none for an unknown id; in a valid
        graph it lists each neighbour once and each neighbour lists `id`. */
    function GetNeighbors(id: int): (r: seq<int>)
      reads this
      ensures id !in adjacencyList ==> r == []
      ensures id in adjacencyList ==> r == adjacencyList[id]
      ensures Valid() ==> NoDuplicates(r) && forall w :: w in r ==> id in Neighbors(adjacencyList, w)
    {
      Neighbors(adjacencyList, id)
    }

    /** `id2` is a neighbour of `id1`; in a valid graph the relation is
        symmetric. */
    function AreConnected(id1: int, id2: int): (r: bool)
      reads this
      ensures r <==> id2 in Neighbors(adjacencyList, id1)
      ensures Valid() ==> (r <==> id1 in Neighbors(adjacencyList, id2))
    {
      id2 in Neighbors(adjacencyList, id1)
    }

    /** The length of `id`'s neighbour list; in a valid graph, the number of
        distinct movies related to `id`. */
    function GetDegree(id: int): (r: nat)
      reads this
      ensures id !in adjacencyList ==> r == 0
      ensures Valid() ==> r == |set w | w in Neighbors(adjacencyList, id)|
    {
      DegreeCountsNeighbors(adjacencyList, id);
      |Neighbors(adjacencyList, id)|
    }

    function GetVertexCount(): (r: nat)
      reads this
      ensures r == |adjacencyList.Keys|
    {
      |adjacencyList|
    }

    /** Half the total length of the neighbour lists, as a JavaScript
        number: twice the result is exactly that total. */
    method GetEdgeCount() returns (r: real)
      ensures 2.0 * r == DegreeSum(adjacencyList, adjacencyList.Keys) as real
    {
      var count := 0;
      var rest := adjacencyList.Keys;
      while rest != {}
        invariant rest <= adjacencyList.Keys
        invariant count + DegreeSum(adjacencyList, rest) == DegreeSum(adjacencyList, adjacencyList.Keys)
      {
        HasMember(rest);
        var id :| id in rest;
        DegreeSumRemove(adjacencyList, rest, id);
        count := count + |adjacencyList[id]|;
        rest := rest - {id};
      }
      r := count as real / 2.0;
    }

    /** Breadth-first search from `startId` that lists every vertex 1 to
        `maxDepth` hops away, in the order first discovered. */
    method Bfs(startId: int, maxDepth: int) returns (related: seq<int>)
      ensures maxDepth <= 0 || startId !in adjacencyList ==> related == []
      ensures maxDepth >= 0 ==>
                forall v :: v in related <==> v in Reach(adjacencyList, startId, maxDepth) && v != startId
      ensures NoDuplicates(related) && startId !in related
      ensures forall i, j, k: nat :: 0 <= i < j < |related| && related[j] in Reach(adjacencyList, startId, k) ==>
                related[i] in Reach(adjacencyList, startId, k)
    {
      var visited: set<int> := {startId};
      var queue: seq<(int, int)> := [(startId, 0)];
      related := [];
      ghost var e: seq<(int, int)> := queue;
      ghost var h: nat := 0;
      BfsStart(adjacencyList, startId, maxDepth);
      ghost var universe := Universe(adjacencyList, startId);
      while |queue| > 0
        invariant BfsInvariant(adjacencyList, startId, maxDepth, e, h)
        invariant visited == IdSet(e) && visited <= universe
        invariant queue == e[h..]
        invariant |related| == (if h == 0 then 0 else h - 1)
        invariant forall i :: 0 <= i < |related| ==> related[i] == e[i + 1].0
        decreases |universe - visited| + |queue|
      {
        BfsHead(adjacencyList, startId, maxDepth, e, h);
        ghost var e0, related0 := e, related;
        var (currentId, depth) := queue[0];
        queue := queue[1..];
        if depth > 0 && depth <= maxDepth {
          related := related + [currentId];
        }
        if depth < maxDepth {
          visited, queue, e :=
            EnqueueNeighbors(adjacencyList, startId, maxDepth, currentId, depth, visited, queue, e, h, universe);
        }
        BfsAdvance(adjacencyList, startId, maxDepth, e, h);
        ListedAfterTurn(e0, e, h, related0, related);
        h := h + 1;
      }
      BfsDone(adjacencyList, startId, maxDepth, e, related);
      if startId !in adjacencyList && maxDepth > 0 {
        NoneBeyondIsolated(adjacencyList, startId, maxDepth, related);
      }
    }

    /** Depth-first search from `startId` that lists, in visiting order,
        vertices at most `maxDepth` hops away. */
    method Dfs(startId: int, maxDepth: int) returns (related: seq<int>)
      ensures maxDepth < 0 ==> related == []
      ensures NoDuplicates(related) && startId !in related
      ensures forall v :: v in related ==> 0 <= maxDepth && v in Reach(adjacencyList, startId, maxDepth)
      ensures maxDepth >= 1 ==>
                forall w :: w in Neighbors(adjacencyList, startId) && w != startId ==> w in related
      ensures maxDepth == 1 ==>
                forall v :: v in related <==> v in Reach(adjacencyList, startId, 1) && v != startId
    {
      ghost var universe := Universe(adjacencyList, startId);
      var visited;
      visited, related := DfsVisit(adjacencyList, maxDepth, startId, 0, {}, [], startId, universe);
      if maxDepth == 1 {
        forall v | v in Reach(adjacencyList, startId, 1) && v != startId ensures v in related {
          ReachOneStep(adjacencyList, startId, v);
        }
      }
    }
  }

  /** Appending `b` to `a`'s list when absent keeps the lists duplicate
      free, and makes the relation symmetric once the reverse link is in. */
  lemma LinkKeepsValid(m: Adjacency, a: int, b: int)
    requires a in m && b in m && DuplicateFree(m)
    ensures DuplicateFree(Link(m, a, b))
  {
  }
}
