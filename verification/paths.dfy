/** Graph vocabulary shared by every engine. A graph is an adjacency list over
    the dense node ids 0 .. |adj|-1. `In(adj, skip, s, k, v)` holds when a
    breadth-first search from `s` that never enters a node of `skip` reaches
    `v` in at most `k` steps (the source itself is always reached); the
    shortest-path distance `Dist` and the eccentricity `Ecc` are read off it. */
module Paths {
  import opened Seqs

  type Adjacency = seq<seq<int>>

  /** Every listed neighbour is a node of the graph. */
  ghost predicate WellFormed(adj: Adjacency) {
    forall u, v :: 0 <= u < |adj| && v in adj[u] ==> 0 <= v < |adj|
  }

  /** Undirected: every edge is listed in both directions. */
  ghost predicate Symmetric(adj: Adjacency) {
    WellFormed(adj) && forall u, v {:trigger v in adj[u]} :: 0 <= u < |adj| && v in adj[u] ==> u in adj[v]
  }

  /** `v` is within `k` steps of `s`, never entering `skip`. */
  ghost predicate In(adj: Adjacency, skip: set<int>, s: int, k: nat, v: int)
    decreases k
  {
    if k == 0 then v == s
    else
      In(adj, skip, s, k - 1, v) ||
      (v !in skip && exists p :: 0 <= p < |adj| && v in adj[p] && In(adj, skip, s, k - 1, p))
  }

  ghost predicate Reaches(adj: Adjacency, skip: set<int>, s: int, v: int) {
    exists k: nat :: In(adj, skip, s, k, v)
  }

  /** `k` is the length of a shortest path from `s` to `v`. */
  ghost predicate IsDist(adj: Adjacency, skip: set<int>, s: int, v: int, k: nat) {
    In(adj, skip, s, k, v) && (k == 0 || !In(adj, skip, s, k - 1, v))
  }

  lemma InStep(adj: Adjacency, skip: set<int>, s: int, k: nat, u: int, v: int)
    requires In(adj, skip, s, k, u) && 0 <= u < |adj| && v in adj[u] && v !in skip
    ensures In(adj, skip, s, k + 1, v)
  {
  }

  /** A node first reached at step k+1 has a predecessor reached by step k. */
  lemma InPred(adj: Adjacency, skip: set<int>, s: int, k: nat, v: int) returns (p: int)
    requires In(adj, skip, s, k + 1, v) && !In(adj, skip, s, k, v)
    ensures In(adj, skip, s, k, p) && 0 <= p < |adj| && v in adj[p] && v !in skip
  {
    p :| 0 <= p < |adj| && v in adj[p] && In(adj, skip, s, k, p);
  }

  lemma {:induction false} InMono(adj: Adjacency, skip: set<int>, s: int, i: nat, j: nat, v: int)
    requires i <= j && In(adj, skip, s, i, v)
    ensures In(adj, skip, s, j, v)
    decreases j
  {
    if i < j {
      InMono(adj, skip, s, i, j - 1, v);
    }
  }

  /** Two graphs whose lists hold the same nodes, in whatever order and
      with whatever repeats, have the same searches. */
  lemma {:induction false} InSameRows(A: Adjacency, B: Adjacency, skip: set<int>, s: int, k: nat, v: int)
    requires |A| == |B|
    requires forall u, x {:trigger x in A[u]} {:trigger x in B[u]} :: 0 <= u < |A| ==> (x in A[u] <==> x in B[u])
    ensures In(A, skip, s, k, v) == In(B, skip, s, k, v)
    decreases k
  {
    if k > 0 {
      var j: nat := k - 1;
      forall p | 0 <= p < |A|
        ensures In(A, skip, s, j, p) <==> In(B, skip, s, j, p)
      {
        InSameRows(A, B, skip, s, j, p);
      }
      InSameRows(A, B, skip, s, j, v);
    }
  }

  /** So reachability depends on the element sets of the lists alone. */
  lemma ReachesSameRows(A: Adjacency, B: Adjacency, skip: set<int>, s: int, v: int)
    requires |A| == |B|
    requires forall u, x {:trigger x in A[u]} {:trigger x in B[u]} :: 0 <= u < |A| ==> (x in A[u] <==> x in B[u])
    ensures Reaches(A, skip, s, v) <==> Reaches(B, skip, s, v)
  {
    if Reaches(A, skip, s, v) {
      var k: nat :| In(A, skip, s, k, v);
      InSameRows(A, B, skip, s, k, v);
    }
    if Reaches(B, skip, s, v) {
      var k: nat :| In(B, skip, s, k, v);
      InSameRows(A, B, skip, s, k, v);
    }
  }

  /** Apart from the source, a search never holds a skipped node. */
  lemma {:induction false} InAvoidsSkip(adj: Adjacency, skip: set<int>, s: int, k: nat, v: int)
    requires In(adj, skip, s, k, v) && v != s
    ensures v !in skip
  {
    if k > 0 && In(adj, skip, s, k - 1, v) {
      InAvoidsSkip(adj, skip, s, k - 1, v);
    }
  }

  lemma {:induction false} InRange(adj: Adjacency, skip: set<int>, s: int, k: nat, v: int)
    requires WellFormed(adj) && 0 <= s < |adj|
    requires In(adj, skip, s, k, v)
    ensures 0 <= v < |adj|
  {
    if k > 0 && In(adj, skip, s, k - 1, v) {
      InRange(adj, skip, s, k - 1, v);
    }
  }

  /** Paths compose: the triangle inequality on step counts. */
  lemma {:induction false} InTrans(adj: Adjacency, skip: set<int>, a: int, c: int, b: int, i: nat, j: nat)
    requires In(adj, skip, a, i, c)
    requires In(adj, skip, c, j, b)
    ensures In(adj, skip, a, i + j, b)
    decreases j
  {
    if j > 0 {
      if In(adj, skip, c, j - 1, b) {
        InTrans(adj, skip, a, c, b, i, j - 1);
        InMono(adj, skip, a, i + j - 1, i + j, b);
      } else {
        var p := InPred(adj, skip, c, j - 1, b);
        InTrans(adj, skip, a, c, p, i, j - 1);
        InStep(adj, skip, a, i + j - 1, p, b);
      }
    }
  }

  /** In an undirected graph a path can be walked backwards. */
  lemma {:induction false} InReverse(adj: Adjacency, skip: set<int>, a: int, b: int, k: nat)
    requires Symmetric(adj) && a !in skip
    requires In(adj, skip, a, k, b)
    ensures In(adj, skip, b, k, a)
    decreases k
  {
    if k > 0 {
      if In(adj, skip, a, k - 1, b) {
        InReverse(adj, skip, a, b, k - 1);
        InMono(adj, skip, b, k - 1, k, a);
      } else {
        var p := InPred(adj, skip, a, k - 1, b);
        InReverse(adj, skip, a, p, k - 1);
        if p != a {
          InAvoidsSkip(adj, skip, a, k - 1, p);
        }
        assert p in adj[b];
        InStep(adj, skip, b, 0, b, p);
        InTrans(adj, skip, b, p, a, 1, k - 1);
      }
    }
  }

  /** A node at distance `k` has, on its shortest path, a node at every smaller distance. */
  lemma {:induction false} LevelNode(adj: Adjacency, skip: set<int>, s: int, v: int, k: nat, j: nat)
    returns (w: int)
    requires IsDist(adj, skip, s, v, k) && j <= k
    ensures IsDist(adj, skip, s, w, j)
    decreases k
  {
    if j == k {
      w := v;
    } else {
      var p := InPred(adj, skip, s, k - 1, v);
      if k >= 2 && In(adj, skip, s, k - 2, p) {
        assert false;
      }
      w := LevelNode(adj, skip, s, p, k - 1, j);
    }
  }

  /** The nodes within `k` steps of `s`. */
  ghost function Ball(adj: Adjacency, skip: set<int>, s: int, k: nat): set<int> {
    set v | 0 <= v < |adj| && In(adj, skip, s, k, v)
  }

  /** A node first reached at step `k` proves the search grew at every step before. */
  lemma {:induction false} BallGrowth(adj: Adjacency, skip: set<int>, s: int, v: int, k: nat, j: nat)
    requires WellFormed(adj) && 0 <= s < |adj|
    requires IsDist(adj, skip, s, v, k) && j <= k
    ensures |Ball(adj, skip, s, j)| >= j + 1
    decreases j
  {
    if j == 0 {
      assert s in Ball(adj, skip, s, 0);
    } else {
      BallGrowth(adj, skip, s, v, k, j - 1);
      var w := LevelNode(adj, skip, s, v, k, j);
      InRange(adj, skip, s, j, w);
      var B0 := Ball(adj, skip, s, j - 1);
      var B1 := Ball(adj, skip, s, j);
      forall x | x in B0 ensures x in B1 {
        InMono(adj, skip, s, j - 1, j, x);
      }
      var C := B0 + {w};
      assert w in B1 && w !in B0;
      assert |C| == |B0| + 1;
      assert C <= B1;
      assert B1 == C + (B1 - C);
    }
  }

  lemma {:induction false} RangeCard(S: set<int>, N: nat)
    requires forall v :: v in S ==> 0 <= v < N
    ensures |S| <= N
    decreases N
  {
    if N == 0 {
      assert forall v :: v !in S;
      assert S == {};
    } else {
      var T := S - {N - 1};
      RangeCard(T, N - 1);
      if N - 1 in S {
        assert S == T + {N - 1};
        assert |S| == |T| + 1;
      } else {
        assert S == T;
      }
    }
  }

  /** Shortest distances are below the number of nodes. */
  lemma DistBelowSize(adj: Adjacency, skip: set<int>, s: int, v: int, k: nat)
    requires WellFormed(adj) && 0 <= s < |adj|
    requires IsDist(adj, skip, s, v, k)
    ensures k < |adj|
  {
    BallGrowth(adj, skip, s, v, k, k);
    RangeCard(Ball(adj, skip, s, k), |adj|);
  }

  /** Every reached node has a first step at which it is reached. */
  lemma {:induction false} FirstReach(adj: Adjacency, skip: set<int>, s: int, v: int, k: nat) returns (j: nat)
    requires In(adj, skip, s, k, v)
    ensures j <= k && IsDist(adj, skip, s, v, j)
    decreases k
  {
    if k > 0 && In(adj, skip, s, k - 1, v) {
      j := FirstReach(adj, skip, s, v, k - 1);
    } else {
      j := k;
    }
  }

  lemma IsDistUnique(adj: Adjacency, skip: set<int>, s: int, v: int, k: nat, j: nat)
    requires IsDist(adj, skip, s, v, k) && IsDist(adj, skip, s, v, j)
    ensures k == j
  {
    if k < j {
      InMono(adj, skip, s, k, j - 1, v);
    } else if j < k {
      InMono(adj, skip, s, j, k - 1, v);
    }
  }

  ghost function DistSearch(adj: Adjacency, skip: set<int>, s: int, v: int, k: nat, fuel: nat): int
    decreases fuel
  {
    if In(adj, skip, s, k, v) then k
    else if fuel == 0 then -1
    else DistSearch(adj, skip, s, v, k + 1, fuel - 1)
  }

  /** Shortest-path length from `s` to `v`, or -1 when `v` is not reached. */
  ghost function Dist(adj: Adjacency, skip: set<int>, s: int, v: int): int {
    DistSearch(adj, skip, s, v, 0, |adj|)
  }

  lemma {:induction false} DistSearchSpec(adj: Adjacency, skip: set<int>, s: int, v: int, k: nat, fuel: nat)
    requires k == 0 || !In(adj, skip, s, k - 1, v)
    ensures var r := DistSearch(adj, skip, s, v, k, fuel);
      (r == -1 && !In(adj, skip, s, k + fuel, v)) || (k <= r && IsDist(adj, skip, s, v, r))
    decreases fuel
  {
    if !In(adj, skip, s, k, v) && fuel > 0 {
      DistSearchSpec(adj, skip, s, v, k + 1, fuel - 1);
    }
  }

  /** Dist agrees with the first step at which the search reaches the node. */
  lemma DistIsFirstReach(adj: Adjacency, skip: set<int>, s: int, v: int, k: nat)
    requires WellFormed(adj) && 0 <= s < |adj|
    requires IsDist(adj, skip, s, v, k)
    ensures Dist(adj, skip, s, v) == k
  {
    DistSearchSpec(adj, skip, s, v, 0, |adj|);
    DistBelowSize(adj, skip, s, v, k);
    var r := Dist(adj, skip, s, v);
    if r == -1 {
      InMono(adj, skip, s, k, |adj|, v);
      assert false;
    }
    IsDistUnique(adj, skip, s, v, k, r);
  }

  /** Dist is -1 exactly for the nodes no number of steps reaches. */
  lemma DistUnreached(adj: Adjacency, skip: set<int>, s: int, v: int)
    requires WellFormed(adj) && 0 <= s < |adj|
    ensures Dist(adj, skip, s, v) >= -1
    ensures Dist(adj, skip, s, v) == -1 <==> !Reaches(adj, skip, s, v)
    ensures Dist(adj, skip, s, v) >= 0 ==> IsDist(adj, skip, s, v, Dist(adj, skip, s, v))
  {
    DistSearchSpec(adj, skip, s, v, 0, |adj|);
    if Reaches(adj, skip, s, v) {
      var k: nat :| In(adj, skip, s, k, v);
      var j := FirstReach(adj, skip, s, v, k);
      DistIsFirstReach(adj, skip, s, v, j);
    }
  }

  /** Dist is the reach step: within `k` steps exactly when 0 <= Dist <= k. */
  lemma DistWithin(adj: Adjacency, skip: set<int>, s: int, v: int, k: nat)
    requires WellFormed(adj) && 0 <= s < |adj|
    ensures In(adj, skip, s, k, v) <==> 0 <= Dist(adj, skip, s, v) <= k
  {
    DistUnreached(adj, skip, s, v);
    if In(adj, skip, s, k, v) {
      var j := FirstReach(adj, skip, s, v, k);
      DistIsFirstReach(adj, skip, s, v, j);
    } else if 0 <= Dist(adj, skip, s, v) <= k {
      InMono(adj, skip, s, Dist(adj, skip, s, v), k, v);
    }
  }

  lemma DistAtSource(adj: Adjacency, skip: set<int>, s: int)
    requires WellFormed(adj) && 0 <= s < |adj|
    ensures Dist(adj, skip, s, s) == 0
  {
    DistIsFirstReach(adj, skip, s, s, 0);
  }

  lemma DistSymmetricHalf(adj: Adjacency, skip: set<int>, a: int, b: int)
    requires Symmetric(adj) && 0 <= a < |adj| && 0 <= b < |adj|
    requires a !in skip && b !in skip
    requires Dist(adj, skip, a, b) >= 0
    ensures Dist(adj, skip, b, a) == Dist(adj, skip, a, b)
  {
    DistUnreached(adj, skip, a, b);
    var k := Dist(adj, skip, a, b);
    InReverse(adj, skip, a, b, k);
    if k > 0 && In(adj, skip, b, k - 1, a) {
      InReverse(adj, skip, b, a, k - 1);
      assert false;
    }
    DistIsFirstReach(adj, skip, b, a, k);
  }

  /** Distances along an undirected graph are symmetric. */
  lemma DistSymmetric(adj: Adjacency, skip: set<int>, a: int, b: int)
    requires Symmetric(adj) && 0 <= a < |adj| && 0 <= b < |adj|
    requires a !in skip && b !in skip
    ensures Dist(adj, skip, a, b) == Dist(adj, skip, b, a)
  {
    if Dist(adj, skip, a, b) >= 0 {
      DistSymmetricHalf(adj, skip, a, b);
    } else if Dist(adj, skip, b, a) >= 0 {
      DistSymmetricHalf(adj, skip, b, a);
    } else {
      DistUnreached(adj, skip, a, b);
      DistUnreached(adj, skip, b, a);
    }
  }

  /** Triangle inequality for shortest-path distances. */
  lemma DistTriangle(adj: Adjacency, skip: set<int>, a: int, c: int, b: int)
    requires WellFormed(adj) && 0 <= a < |adj| && 0 <= c < |adj|
    requires Dist(adj, skip, a, c) >= 0 && Dist(adj, skip, c, b) >= 0
    ensures 0 <= Dist(adj, skip, a, b) <= Dist(adj, skip, a, c) + Dist(adj, skip, c, b)
  {
    DistUnreached(adj, skip, a, c);
    DistUnreached(adj, skip, c, b);
    var i := Dist(adj, skip, a, c);
    var j := Dist(adj, skip, c, b);
    InTrans(adj, skip, a, c, b, i, j);
    DistWithin(adj, skip, a, b, i + j);
  }

  /** One more edge adds at most one to the distance. */
  lemma DistEdge(adj: Adjacency, skip: set<int>, s: int, u: int, w: int)
    requires WellFormed(adj) && 0 <= s < |adj| && 0 <= u < |adj|
    requires Dist(adj, skip, s, u) >= 0 && w in adj[u] && w !in skip
    ensures 0 <= Dist(adj, skip, s, w) <= Dist(adj, skip, s, u) + 1
  {
    DistUnreached(adj, skip, s, u);
    var k := Dist(adj, skip, s, u);
    InStep(adj, skip, s, k, u, w);
    DistWithin(adj, skip, s, w, k + 1);
  }

  /** The distance of every node from `s`, in node order. */
  ghost function DistVec(adj: Adjacency, skip: set<int>, s: int): (r: seq<int>)
    ensures |r| == |adj|
  {
    seq(|adj|, v => Dist(adj, skip, s, v))
  }

  /** Eccentricity: the largest distance from `s` to a node it reaches. */
  ghost function Ecc(adj: Adjacency, skip: set<int>, s: int): int {
    Max0(DistVec(adj, skip, s))
  }

  /** The eccentricity bounds the distance to every reached node and is attained. */
  lemma EccBounds(adj: Adjacency, skip: set<int>, s: int, v: int)
    requires 0 <= v < |adj|
    ensures Dist(adj, skip, s, v) <= Ecc(adj, skip, s)
    ensures Ecc(adj, skip, s) >= 0
  {
    assert DistVec(adj, skip, s)[v] == Dist(adj, skip, s, v);
  }

  lemma EccAttained(adj: Adjacency, skip: set<int>, s: int)
    requires WellFormed(adj) && 0 <= s < |adj|
    ensures exists v :: 0 <= v < |adj| && Dist(adj, skip, s, v) == Ecc(adj, skip, s)
  {
    if Ecc(adj, skip, s) == 0 {
      DistAtSource(adj, skip, s);
      assert DistVec(adj, skip, s)[s] == 0;
    }
  }
}
