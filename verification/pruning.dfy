/** The leaf pruning of src/BDGraph.cpp (`pruning`) and what it does to
    distances. The pruning table holds -1 for a node left alone, -2 for a
    leaf whose sibling leaves were pruned (a representative), and r >= 0
    for a leaf pruned as identical to the representative r: the leaves
    hanging off one node all have the same distances to the rest of the
    graph, so the searches of the bounding loop skip all but one of them. */
module LeafPruning {
  import opened Seqs
  import opened Paths
  import opened Tables

  /** The nodes a search over the pruned graph never enters. */
  ghost function Skipped(pruned: seq<int>): set<int> {
    set w | 0 <= w < |pruned| && pruned[w] >= 0
  }

  /** A node with exactly one neighbour. */
  predicate Leaf(G: Adjacency, x: int) {
    0 <= x < |G| && |G[x]| == 1
  }

  /** `r` is the smallest leaf among the neighbours of `h`. */
  ghost predicate SmallestLeaf(G: Adjacency, h: int, r: int)
    requires 0 <= h < |G|
  {
    forall y :: y in G[h] && Leaf(G, y) ==> r <= y
  }

  /** A representative: a leaf hanging off an LWCC node, the smallest leaf
      there, with at least one sibling leaf. */
  ghost predicate RepOk(G: Adjacency, inL: seq<bool>, r: int)
    requires |inL| == |G| && WellFormed(G)
  {
    Leaf(G, r) && G[r][0] in G[r] && inL[G[r][0]] && SmallestLeaf(G, G[r][0], r) &&
    exists y :: y in G[G[r][0]] && Leaf(G, y) && y != r
  }

  /** A pruned leaf: it shares its one neighbour, an LWCC node, with its
      representative, a smaller leaf. */
  ghost predicate TwinOk(G: Adjacency, inL: seq<bool>, pruned: seq<int>, x: int)
    requires |inL| == |G| == |pruned| && 0 <= x < |G| && 0 <= pruned[x] < |G|
  {
    var r := pruned[x];
    r < x && Leaf(G, x) && G[r] == G[x] && pruned[r] == -2 && 0 <= G[x][0] < |G| && inL[G[x][0]]
  }

  /** What the pruning table says about every node. */
  ghost predicate PruneShape(G: Adjacency, inL: seq<bool>, pruned: seq<int>) {
    WellFormed(G) && |inL| == |G| == |pruned| &&
    (forall x :: 0 <= x < |G| ==> -2 <= pruned[x] < |G|) &&
    (forall x :: 0 <= x < |G| && pruned[x] >= 0 ==> TwinOk(G, inL, pruned, x)) &&
    (forall r :: 0 <= r < |G| && pruned[r] == -2 ==> RepOk(G, inL, r))
  }

  /** Of two leaves sharing a neighbour h < upto in the LWCC, neither is left
      untouched. */
  ghost predicate CompleteBelow(G: Adjacency, inL: seq<bool>, pruned: seq<int>, upto: int)
    requires |inL| == |G| == |pruned|
  {
    forall x, y :: Leaf(G, x) && Leaf(G, y) && x != y && G[x] == G[y] && 0 <= G[x][0] < upto && G[x][0] < |G| && inL[G[x][0]] ==>
      pruned[x] != -1
  }

  /** `a` and `b` agree on the neighbours of `i` from position `j` on. */
  ghost predicate SameFrom(G: Adjacency, i: int, j: int, a: seq<int>, b: seq<int>)
    requires 0 <= i < |G| && |a| == |b| == |G|
  {
    forall k :: 0 <= j <= k < |G[i]| ==> var y := G[i][k]; 0 <= y < |G| ==> a[y] == b[y]
  }

  /** Only leaves of the nodes below `upto` have been touched. */
  ghost predicate TouchedBelow(G: Adjacency, pruned: seq<int>, upto: int)
    requires |pruned| == |G|
  {
    forall y :: 0 <= y < |G| && pruned[y] != -1 ==> Leaf(G, y) && G[y][0] < upto
  }

  /** `pruning()`: for every LWCC node in node order, its first leaf not yet
      touched becomes the representative and every further one is pruned
      onto it; a representative with pruned siblings is marked -2. The
      count returned is the number of pruned nodes. Together, the shape
      and completeness facts fix the table: among the leaves hanging off
      one LWCC node, the smallest is the representative (-2) and the others
      point to it when there are two or more, and every other node is -1. */
  method Pruning(G: Adjacency, inL: seq<bool>) returns (pruned: seq<int>, count: int)
    requires Symmetric(G) && AllIncreasing(G) && |inL| == |G|
    ensures PruneShape(G, inL, pruned)
    ensures CompleteBelow(G, inL, pruned, |G|)
    ensures count == |Skipped(pruned)|
  {
    pruned := seq(|G|, _ => -1);
    assert Skipped(pruned) == {};
    count := 0;
    var i := 0;
    while i < |G|
      invariant 0 <= i <= |G|
      invariant PruneShape(G, inL, pruned) && count == |Skipped(pruned)|
      invariant TouchedBelow(G, pruned, i) && CompleteBelow(G, inL, pruned, i)
    {
      if inL[i] {
        pruned, count := PruneHub(G, inL, pruned, count, i);
      }
      i := i + 1;
    }
  }

  /** The scan state for hub `i` after its first `j` neighbours: `prunee`
      is the first leaf seen (at position `pk`), every later leaf seen
      points to it, and then it is marked -2. */
  ghost predicate HubScan(G: Adjacency, pruned: seq<int>, i: int, j: int, prunee: int, pk: int)
    requires 0 <= i < |G| && |pruned| == |G| && 0 <= j <= |G[i]|
  {
    (prunee == -1 ==> forall k :: 0 <= k < j ==> !Leaf(G, G[i][k])) &&
    (prunee != -1 ==>
      0 <= pk < j && G[i][pk] == prunee && Leaf(G, prunee) &&
      (forall k :: 0 <= k < pk ==> !Leaf(G, G[i][k])) &&
      (pruned[prunee] == -1 || pruned[prunee] == -2) &&
      forall k :: pk < k < j && Leaf(G, G[i][k]) ==> pruned[G[i][k]] == prunee && pruned[prunee] == -2)
  }

  /** The inner loop of `pruning` for one LWCC node `i`. */
  method PruneHub(G: Adjacency, inL: seq<bool>, pruned0: seq<int>, count0: int, i: int)
      returns (pruned: seq<int>, count: int)
    requires PruneShape(G, inL, pruned0) && count0 == |Skipped(pruned0)|
    requires Symmetric(G) && AllIncreasing(G) && 0 <= i < |G| && inL[i]
    requires TouchedBelow(G, pruned0, i) && CompleteBelow(G, inL, pruned0, i)
    ensures PruneShape(G, inL, pruned) && count == |Skipped(pruned)|
    ensures TouchedBelow(G, pruned, i + 1) && CompleteBelow(G, inL, pruned, i + 1)
  {
    pruned, count := pruned0, count0;
    var prunee := -1;
    ghost var pk := -1;
    var j := 0;
    while j < |G[i]|
      invariant 0 <= j <= |G[i]|
      invariant PruneShape(G, inL, pruned) && count == |Skipped(pruned)|
      invariant TouchedBelow(G, pruned, i + 1)
      invariant forall y :: 0 <= y < |G| && pruned0[y] != -1 ==> pruned[y] != -1
      invariant SameFrom(G, i, j, pruned, pruned0)
      invariant HubScan(G, pruned, i, j, prunee, pk)
    {
      pruned, count, prunee, pk := PruneStep(G, inL, pruned0, pruned, count, i, j, prunee, pk);
      j := j + 1;
    }
    forall x, y | Leaf(G, x) && Leaf(G, y) && x != y && G[x] == G[y] && 0 <= G[x][0] < i + 1 && G[x][0] < |G| && inL[G[x][0]]
      ensures pruned[x] != -1
    {
      if G[x][0] == i {
        HubLeaf(G, i, x);
        HubLeaf(G, i, y);
        var kx :| 0 <= kx < |G[i]| && G[i][kx] == x;
        var ky :| 0 <= ky < |G[i]| && G[i][ky] == y;
        assert Leaf(G, G[i][kx]) && Leaf(G, G[i][ky]);
      }
    }
  }

  /** One pass of the inner loop of `pruning`: the neighbour at position
      `j`, if it is a leaf not yet touched, becomes the representative or
      is pruned onto it. */
  method PruneStep(G: Adjacency, inL: seq<bool>, ghost pruned0: seq<int>, pruned1: seq<int>, count1: int,
                   i: int, j: int, prunee1: int, ghost pk1: int)
      returns (pruned: seq<int>, count: int, prunee: int, ghost pk: int)
    requires PruneShape(G, inL, pruned0) && TouchedBelow(G, pruned0, i)
    requires Symmetric(G) && AllIncreasing(G) && 0 <= i < |G| && inL[i] && 0 <= j < |G[i]|
    requires PruneShape(G, inL, pruned1) && count1 == |Skipped(pruned1)|
    requires TouchedBelow(G, pruned1, i + 1)
    requires forall y :: 0 <= y < |G| && pruned0[y] != -1 ==> pruned1[y] != -1
    requires SameFrom(G, i, j, pruned1, pruned0)
    requires HubScan(G, pruned1, i, j, prunee1, pk1)
    ensures PruneShape(G, inL, pruned) && count == |Skipped(pruned)|
    ensures TouchedBelow(G, pruned, i + 1)
    ensures forall y :: 0 <= y < |G| && pruned0[y] != -1 ==> pruned[y] != -1
    ensures SameFrom(G, i, j + 1, pruned, pruned0)
    ensures HubScan(G, pruned, i, j + 1, prunee, pk)
  {
    var w := G[i][j];
    LeafUntouched(G, inL, pruned0, pruned1, i, j);
    pruned, count, prunee, pk := pruned1, count1, prunee1, pk1;
    if |G[w]| == 1 && pruned1[w] == -1 {
      if prunee1 == -1 {
        prunee, pk := w, j;
        ScanFirstLeaf(G, pruned1, i, j);
      } else {
        pruned := pruned1[w := prunee1][prunee1 := -2];
        count := count1 + 1;
        PruneTwin(G, inL, pruned1, pruned, i, j, prunee1, pk1);
        ScanTwin(G, pruned1, pruned, i, j, prunee1, pk1);
        TwinFrame(G, pruned0, pruned1, pruned, i, j, prunee1, pk1);
      }
    } else if |G[w]| == 1 {
      assert false;
    } else {
      ScanNonLeaf(G, pruned1, i, j, prunee1, pk1);
    }
  }

  /** The neighbour at position `j` is a node, and if a leaf, hangs off `i`
      only and is untouched. */
  lemma LeafUntouched(G: Adjacency, inL: seq<bool>, pruned0: seq<int>, pruned1: seq<int>, i: int, j: int)
    requires PruneShape(G, inL, pruned0) && TouchedBelow(G, pruned0, i) && |pruned1| == |G|
    requires Symmetric(G) && 0 <= i < |G| && 0 <= j < |G[i]|
    requires SameFrom(G, i, j, pruned1, pruned0)
    ensures 0 <= G[i][j] < |G|
    ensures Leaf(G, G[i][j]) ==> G[G[i][j]] == [i] && pruned1[G[i][j]] == -1
  {
    var w := G[i][j];
    assert w in G[i];
    HubLeaf(G, i, w);
  }

  /** Pruning at positions `pk` and `j` leaves the later positions alone
      and untouches nothing. */
  lemma TwinFrame(G: Adjacency, pruned0: seq<int>, pruned1: seq<int>, pruned: seq<int>, i: int, j: int, r: int, pk: int)
    requires AllIncreasing(G) && WellFormed(G) && 0 <= i < |G| && |pruned0| == |pruned1| == |G| && 0 <= pk < j < |G[i]|
    requires G[i][pk] == r && 0 <= r < |G| && 0 <= G[i][j] < |G|
    requires forall y :: 0 <= y < |G| && pruned0[y] != -1 ==> pruned1[y] != -1
    requires SameFrom(G, i, j, pruned1, pruned0)
    requires pruned == pruned1[G[i][j] := r][r := -2]
    ensures forall y :: 0 <= y < |G| && pruned0[y] != -1 ==> pruned[y] != -1
    ensures SameFrom(G, i, j + 1, pruned, pruned0)
  {
    forall k | j + 1 <= k < |G[i]|
      ensures G[i][k] != G[i][j] && G[i][k] != r
    {
      assert G[i][pk] < G[i][j] < G[i][k];
    }
  }

  lemma ScanNonLeaf(G: Adjacency, pruned: seq<int>, i: int, j: int, prunee: int, pk: int)
    requires 0 <= i < |G| && |pruned| == |G| && 0 <= j < |G[i]|
    requires HubScan(G, pruned, i, j, prunee, pk) && !Leaf(G, G[i][j])
    ensures HubScan(G, pruned, i, j + 1, prunee, pk)
  {
  }

  lemma ScanFirstLeaf(G: Adjacency, pruned: seq<int>, i: int, j: int)
    requires 0 <= i < |G| && |pruned| == |G| && 0 <= j < |G[i]|
    requires HubScan(G, pruned, i, j, -1, -1) && Leaf(G, G[i][j]) && pruned[G[i][j]] == -1
    ensures HubScan(G, pruned, i, j + 1, G[i][j], j)
  {
  }

  lemma ScanTwin(G: Adjacency, pruned1: seq<int>, pruned: seq<int>, i: int, j: int, r: int, pk: int)
    requires AllIncreasing(G) && 0 <= i < |G| && |pruned1| == |G| && 0 <= j < |G[i]|
    requires HubScan(G, pruned1, i, j, r, pk) && r != -1 && Leaf(G, G[i][j])
    requires pruned == pruned1[G[i][j] := r][r := -2]
    ensures HubScan(G, pruned, i, j + 1, r, pk)
  {
    assert G[i][pk] < G[i][j];
    forall k | pk < k < j + 1 && Leaf(G, G[i][k])
      ensures pruned[G[i][k]] == r
    {
      assert G[i][pk] < G[i][k];
    }
  }

  /** Pruning the leaf at position `j` onto the representative at
      position `pk` keeps the shape of the table and adds one pruned node. */
  lemma PruneTwin(G: Adjacency, inL: seq<bool>, pruned1: seq<int>, pruned: seq<int>, i: int, j: int, r: int, pk: int)
    requires PruneShape(G, inL, pruned1) && TouchedBelow(G, pruned1, i + 1)
    requires Symmetric(G) && AllIncreasing(G) && 0 <= i < |G| && inL[i] && 0 <= pk < j < |G[i]|
    requires G[i][pk] == r && Leaf(G, r) && (pruned1[r] == -1 || pruned1[r] == -2)
    requires forall k :: 0 <= k < pk ==> !Leaf(G, G[i][k])
    requires Leaf(G, G[i][j]) && pruned1[G[i][j]] == -1
    requires pruned == pruned1[G[i][j] := r][r := -2]
    ensures PruneShape(G, inL, pruned) && TouchedBelow(G, pruned, i + 1)
    ensures Skipped(pruned) == Skipped(pruned1) + {G[i][j]} && G[i][j] !in Skipped(pruned1)
  {
    var w := G[i][j];
    assert w in G[i] && r in G[i];
    HubLeaf(G, i, w);
    HubLeaf(G, i, r);
    assert r < w;
    assert SmallestLeaf(G, i, r) by {
      forall y | y in G[i] && Leaf(G, y)
        ensures r <= y
      {
        var k :| 0 <= k < |G[i]| && G[i][k] == y;
        assert Leaf(G, G[i][k]);
      }
    }
    assert RepOk(G, inL, r);
    forall x | 0 <= x < |G| && pruned[x] >= 0
      ensures TwinOk(G, inL, pruned, x)
    {
      if x != w {
        assert pruned[x] == pruned1[x] && TwinOk(G, inL, pruned1, x);
      }
    }
  }

  /** In an undirected graph a leaf listed by `h` hangs off `h`. */
  lemma HubLeaf(G: Adjacency, h: int, x: int)
    requires Symmetric(G) && 0 <= h < |G|
    ensures Leaf(G, x) && x in G[h] ==> G[x] == [h]
    ensures Leaf(G, x) && G[x][0] == h ==> x in G[h]
  {
    if Leaf(G, x) {
      var a := G[x][0];
      assert a in G[x];
      if x in G[h] {
        assert h in G[x];
      }
    }
  }

  // Distances in the pruned graph.

  /** A walk that avoids `skip` is a walk. */
  lemma {:induction false} InSkipMono(G: Adjacency, skip: set<int>, s: int, k: nat, v: int)
    requires In(G, skip, s, k, v)
    ensures In(G, {}, s, k, v)
    decreases k
  {
    if k > 0 {
      if In(G, skip, s, k - 1, v) {
        InSkipMono(G, skip, s, k - 1, v);
      } else {
        var p := InPred(G, skip, s, k - 1, v);
        InSkipMono(G, skip, s, k - 1, p);
        InStep(G, {}, s, k - 1, p, v);
      }
    }
  }

  /** Every node marked pruned is a leaf. */
  ghost predicate PrunedLeaves(G: Adjacency, pruned: seq<int>) {
    |pruned| == |G| && forall p :: 0 <= p < |G| && pruned[p] >= 0 ==> |G[p]| == 1
  }

  lemma ShapeLeaves(G: Adjacency, inL: seq<bool>, pruned: seq<int>)
    requires PruneShape(G, inL, pruned)
    ensures PrunedLeaves(G, pruned)
  {
    forall p | 0 <= p < |G| && pruned[p] >= 0
      ensures |G[p]| == 1
    {
      assert TwinOk(G, inL, pruned, p);
    }
  }

  /** A walk that reaches a pruned leaf by step j reached its one
      neighbour a step earlier. */
  lemma {:induction false} LeafBack(G: Adjacency, pruned: seq<int>, s: int, j: nat, p: int, v: int)
    requires Symmetric(G) && PrunedLeaves(G, pruned) && 0 <= s < |G| && pruned[s] < 0
    requires 0 <= p < |G| && pruned[p] >= 0 && In(G, {}, s, j, p) && v in G[p]
    ensures j > 0 && In(G, {}, s, j - 1, v) && In(G, {}, s, j, v)
    decreases j
  {
    assert G[p] == [G[p][0]];
    if j > 0 {
      if In(G, {}, s, j - 1, p) {
        LeafBack(G, pruned, s, j - 1, p, v);
      } else {
        var q := InPred(G, {}, s, j - 1, p);
        assert q in G[p];
      }
      InMono(G, {}, s, j - 1, j, v);
    }
  }

  /** A node first reached at step k+1 without being pruned has an unpruned
      predecessor: a pruned one would have been entered from it. */
  lemma UnprunedPred(G: Adjacency, pruned: seq<int>, s: int, k: nat, v: int) returns (p: int)
    requires Symmetric(G) && PrunedLeaves(G, pruned) && 0 <= s < |G| && pruned[s] < 0
    requires In(G, {}, s, k + 1, v) && !In(G, {}, s, k, v)
    ensures 0 <= p < |G| && pruned[p] < 0 && In(G, {}, s, k, p) && v in G[p]
  {
    p := InPred(G, {}, s, k, v);
    if pruned[p] >= 0 {
      LeafBack(G, pruned, s, k, p, v);
      assert false;
    }
  }

  /** Skipping the pruned leaves cuts no walk between unpruned nodes: a
      walk through a pruned leaf enters it from its one neighbour and must
      leave it back to that same neighbour. */
  lemma {:induction false} InPrune(G: Adjacency, pruned: seq<int>, s: int, k: nat, v: int)
    requires Symmetric(G) && PrunedLeaves(G, pruned)
    requires 0 <= s < |G| && pruned[s] < 0 && 0 <= v < |G| && pruned[v] < 0
    requires In(G, {}, s, k, v)
    ensures In(G, Skipped(pruned), s, k, v)
    decreases k
  {
    if k > 0 {
      if In(G, {}, s, k - 1, v) {
        InPrune(G, pruned, s, k - 1, v);
      } else {
        var p := UnprunedPred(G, pruned, s, k - 1, v);
        InPrune(G, pruned, s, k - 1, p);
        InStep(G, Skipped(pruned), s, k - 1, p, v);
      }
    }
  }

  /** Between unpruned nodes, the pruned graph keeps every distance. */
  lemma DistPruned(G: Adjacency, inL: seq<bool>, pruned: seq<int>, s: int, v: int)
    requires Symmetric(G) && PruneShape(G, inL, pruned)
    requires 0 <= s < |G| && pruned[s] < 0 && 0 <= v < |G| && pruned[v] < 0
    ensures Dist(G, Skipped(pruned), s, v) == Dist(G, {}, s, v)
  {
    var P := Skipped(pruned);
    DistUnreached(G, {}, s, v);
    DistUnreached(G, P, s, v);
    if Dist(G, {}, s, v) >= 0 {
      DistPrunedReached(G, inL, pruned, s, v, Dist(G, {}, s, v));
    } else if Dist(G, P, s, v) >= 0 {
      InSkipMono(G, P, s, Dist(G, P, s, v), v);
    }
  }

  lemma DistPrunedReached(G: Adjacency, inL: seq<bool>, pruned: seq<int>, s: int, v: int, r: nat)
    requires Symmetric(G) && PruneShape(G, inL, pruned)
    requires 0 <= s < |G| && pruned[s] < 0 && 0 <= v < |G| && pruned[v] < 0
    requires IsDist(G, {}, s, v, r)
    ensures Dist(G, Skipped(pruned), s, v) == r
  {
    var P := Skipped(pruned);
    ShapeLeaves(G, inL, pruned);
    InPrune(G, pruned, s, r, v);
    if r > 0 && In(G, P, s, r - 1, v) {
      InSkipMono(G, P, s, r - 1, v);
    }
    DistIsFirstReach(G, P, s, v, r);
  }

  // Components.

  /** `inL` marks the nodes of one connected component. */
  ghost predicate Component(G: Adjacency, inL: seq<bool>) {
    |inL| == |G| &&
    forall a, b :: 0 <= a < |G| && 0 <= b < |G| && inL[a] ==> (inL[b] <==> Reaches(G, {}, a, b))
  }

  /** The nodes of the component. */
  ghost function Members(inL: seq<bool>): set<int> {
    set i | 0 <= i < |inL| && inL[i]
  }

  lemma SubsetCard(A: set<int>, B: set<int>)
    requires A <= B
    ensures |A| <= |B|
  {
    assert B == A + (B - A);
    assert A * (B - A) == {};
  }

  /** Within a component of L nodes no distance reaches L, whatever is
      skipped. */
  lemma DistBelowComponent(G: Adjacency, inL: seq<bool>, skip: set<int>, s: int, v: int)
    requires WellFormed(G) && Component(G, inL) && 0 <= s < |G| && inL[s]
    ensures Dist(G, skip, s, v) < |Members(inL)|
  {
    assert s in Members(inL);
    DistUnreached(G, skip, s, v);
    var r := Dist(G, skip, s, v);
    if r >= 0 {
      BallGrowth(G, skip, s, v, r, r);
      var B := Ball(G, skip, s, r);
      forall x | x in B
        ensures x in Members(inL)
      {
        InSkipMono(G, skip, s, r, x);
      }
      SubsetCard(B, Members(inL));
    }
  }

  /** The eccentricity of a component node is below the component size. */
  lemma EccBelowComponent(G: Adjacency, inL: seq<bool>, skip: set<int>, s: int)
    requires WellFormed(G) && Component(G, inL) && 0 <= s < |G| && inL[s]
    ensures 0 <= Ecc(G, skip, s) < |Members(inL)|
  {
    EccAttained(G, skip, s);
    var v :| 0 <= v < |G| && Dist(G, skip, s, v) == Ecc(G, skip, s);
    DistBelowComponent(G, inL, skip, s, v);
    EccBounds(G, skip, s, v);
  }
}
