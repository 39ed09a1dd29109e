/** Hop distance in an adjacency-list graph: the reference the traversals
    of the relation graph are proved against. */
module Hops {

  /** Each vertex identifier mapped to its neighbour list. */
  type Adjacency = map<int, seq<int>>

  /** The neighbour list of `id`, or the empty list for an unknown id: the
      `adjacencyList.get(id) || []` idiom. */
  function Neighbors(m: Adjacency, id: int): seq<int> {
    if id in m then m[id] else []
  }

  /** Every identifier the graph mentions, as a key or in a list. */
  ghost function Vertices(m: Adjacency): set<int> {
    m.Keys + (set v, w | v in m && w in m[v] :: w)
  }

  /** The vertices one edge away from some vertex of `s`. */
  ghost function Step(m: Adjacency, s: set<int>): set<int> {
    set v, w | v in s && w in Neighbors(m, v) :: w
  }

  /** The vertices at most `k` edges away from `start`. */
  ghost function Reach(m: Adjacency, start: int, k: nat): set<int> {
    if k == 0 then {start}
    else Reach(m, start, k - 1) + Step(m, Reach(m, start, k - 1))
  }

  lemma NeighborIsVertex(m: Adjacency, v: int, w: int)
    requires w in Neighbors(m, v)
    ensures w in Vertices(m)
  {
  }

  lemma {:induction false} ReachMonotone(m: Adjacency, start: int, a: nat, b: nat)
    requires a <= b
    ensures Reach(m, start, a) <= Reach(m, start, b)
    decreases b
  {
    if a < b {
      ReachMonotone(m, start, a, b - 1);
    }
  }

  lemma ReachMonotoneAt(m: Adjacency, start: int, a: nat, b: nat, v: int)
    requires a <= b && v in Reach(m, start, a)
    ensures v in Reach(m, start, b)
  {
    ReachMonotone(m, start, a, b);
  }

  /** A neighbour of a vertex within `k` hops is within `k + 1` hops. */
  lemma ReachNeighbor(m: Adjacency, start: int, k: nat, v: int, w: int)
    requires v in Reach(m, start, k) && w in Neighbors(m, v)
    ensures w in Reach(m, start, k + 1)
  {
    assert w in Step(m, Reach(m, start, k));
  }

  /** Within one hop of `start` lie `start` and its neighbours only. */
  lemma ReachOneStep(m: Adjacency, start: int, v: int)
    requires v in Reach(m, start, 1) && v != start
    ensures v in Neighbors(m, start)
  {
    assert Reach(m, start, 0) == {start};
  }

  /** From a vertex without neighbours nothing else is within reach: the
      case of an identifier the graph does not know. */
  lemma {:induction false} ReachIsolated(m: Adjacency, start: int, k: nat)
    requires Neighbors(m, start) == []
    ensures Reach(m, start, k) == {start}
  {
    if k > 0 {
      ReachIsolated(m, start, k - 1);
      assert Step(m, {start}) == {};
    }
  }

  /** Nothing but the start is within reach of a vertex without neighbours. */
  lemma NoneBeyondIsolated(m: Adjacency, start: int, k: nat, r: seq<int>)
    requires Neighbors(m, start) == []
    requires forall i :: 0 <= i < |r| ==> r[i] in Reach(m, start, k) && r[i] != start
    ensures r == []
  {
    ReachIsolated(m, start, k);
    EmptyOrHead(r);
  }

  lemma EmptyOrHead(r: seq<int>)
    ensures r == [] || r[0] in r
  {
  }

  /** Everything within reach is the start or a vertex the graph mentions. */
  lemma {:induction false} ReachInVertices(m: Adjacency, start: int, k: nat)
    ensures Reach(m, start, k) <= Vertices(m) + {start}
  {
    if k > 0 {
      ReachInVertices(m, start, k - 1);
      forall w | w in Step(m, Reach(m, start, k - 1)) ensures w in Vertices(m) {
        var v :| v in Reach(m, start, k - 1) && w in Neighbors(m, v);
        NeighborIsVertex(m, v, w);
      }
    }
  }

  /** `p` is a walk in the graph: each vertex lists the next one. */
  ghost predicate IsWalk(m: Adjacency, p: seq<int>) {
    forall i :: 0 <= i < |p| - 1 ==> p[i + 1] in Neighbors(m, p[i])
  }

  /** `Reach` is hop distance in the textbook sense: `v` is within `k` hops
      of `start` exactly when some walk of at most `k` edges leads from
      `start` to `v`. */
  lemma {:induction false} ReachIsWalks(m: Adjacency, start: int, k: nat, v: int)
    ensures v in Reach(m, start, k) <==>
              exists p :: IsWalk(m, p) && 0 < |p| <= k + 1 && p[0] == start && p[|p| - 1] == v
  {
    if v in Reach(m, start, k) {
      var p := WalkTo(m, start, k, v);
    }
    if exists p :: IsWalk(m, p) && 0 < |p| <= k + 1 && p[0] == start && p[|p| - 1] == v {
      var p :| IsWalk(m, p) && 0 < |p| <= k + 1 && p[0] == start && p[|p| - 1] == v;
      WalkIsReach(m, start, p);
      ReachMonotone(m, start, |p| - 1, k);
    }
  }

  /** A vertex one step from `s` has a neighbour in `s` that lists it. */
  lemma StepSource(m: Adjacency, s: set<int>, v: int) returns (u: int)
    requires v in Step(m, s)
    ensures u in s && v in Neighbors(m, u)
  {
    u :| u in s && v in Neighbors(m, u);
  }

  /** A walk extended by a neighbour of its last vertex is a walk. */
  lemma WalkExtend(m: Adjacency, q: seq<int>, v: int)
    requires IsWalk(m, q) && 0 < |q| && v in Neighbors(m, q[|q| - 1])
    ensures IsWalk(m, q + [v])
  {
    var p := q + [v];
    forall i | 0 <= i < |p| - 1 ensures p[i + 1] in Neighbors(m, p[i]) {
      if i < |q| - 1 {
        assert p[i] == q[i] && p[i + 1] == q[i + 1];
      }
    }
  }

  lemma {:induction false} WalkTo(m: Adjacency, start: int, k: nat, v: int) returns (p: seq<int>)
    requires v in Reach(m, start, k)
    ensures IsWalk(m, p) && 0 < |p| <= k + 1 && p[0] == start && p[|p| - 1] == v
  {
    if k == 0 {
      p := [start];
    } else if v in Reach(m, start, k - 1) {
      p := WalkTo(m, start, k - 1, v);
    } else {
      var u := StepSource(m, Reach(m, start, k - 1), v);
      var q := WalkTo(m, start, k - 1, u);
      p := q + [v];
      WalkExtend(m, q, v);
    }
  }

  lemma {:induction false} WalkIsReach(m: Adjacency, start: int, p: seq<int>)
    requires IsWalk(m, p) && 0 < |p| && p[0] == start
    ensures p[|p| - 1] in Reach(m, start, |p| - 1)
  {
    if |p| > 1 {
      var q := p[..|p| - 1];
      assert IsWalk(m, q) by {
        forall i | 0 <= i < |q| - 1 ensures q[i + 1] in Neighbors(m, q[i]) {
          assert q[i + 1] == p[i + 1] && q[i] == p[i];
        }
      }
      WalkIsReach(m, start, q);
      ReachNeighbor(m, start, |q| - 1, q[|q| - 1], p[|p| - 1]);
    }
  }
}
