/** The centrality measures of src/CenGraph.cpp that work on whole numbers:
    the distance sums behind closeness (`closenessSum`, `closenesses` and the
    exhaustive accumulation of `closenessCentrality`), the degree
    centralities, and the per-node dispatch of `eccentricityCentrality`.
    The floating-point quotients these feed are not modelled. */
module Centrality {
  import opened Seqs
  import opened Paths
  import opened Bfs
  import opened DistanceSearch
  import opened LeafPruning
  import opened Bounding
  import opened Extrema

  // ---------------------------------------------------------------------
  // closenessSum(u)

  /** `closenessSum(u)`: a breadth-first search from `u` along the out-lists
      that adds the label of every node it labels. The total is the sum of
      the distances from `u` to the nodes it reaches. */
  method ClosenessSum(adj: Adjacency, u: int) returns (total: int)
    requires WellFormed(adj) && 0 <= u < |adj|
    ensures total == SumPos(DistVec(adj, {}, u))
  {
    var d := Initial(|adj|, u);
    var q := [u];
    var h := 0;
    total := 0;
    OuterStart(adj, {}, u);
    SumPosNonPositive(d);
    while h < |q|
      invariant Outer(adj, {}, u, d, q, h) && total == SumPos(d)
      decreases Count(d, -1), |q| - h
    {
      OuterPop(adj, {}, u, d, q, h);
      d, q, total := ScanSum(adj, u, d, q, h + 1, total);
      h := h + 1;
    }
    OuterDone(adj, {}, u, d, q);
  }

  /** The inner loop of `closenessSum`. */
  method ScanSum(adj: Adjacency, u: int, d0: seq<int>, q0: seq<int>, h: int, total0: int)
      returns (d: seq<int>, q: seq<int>, total: int)
    requires Inner(adj, {}, u, d0, q0, h, 0) && total0 == SumPos(d0)
    ensures Outer(adj, {}, u, d, q, h) && total == SumPos(d)
    ensures Count(d, -1) + |q| == Count(d0, -1) + |q0| && |q| >= |q0|
  {
    d, q, total := d0, q0, total0;
    ghost var all := Count(d0, -1) + |q0|;
    var j := 0;
    while j < |adj[q[h - 1]]|
      invariant Scanning(adj, {}, u, d, q, h, j, |q0|, all) && total == SumPos(d)
      decreases |adj[q[h - 1]]| - j
    {
      d, q, total := SumOne(adj, u, d, q, h, j, |q0|, all, total);
      j := j + 1;
    }
    ScanDone(adj, {}, u, d, q, h, |q0|, all);
  }

  /** One pass of the inner loop of `closenessSum`: a newly labelled
      neighbour adds its label to the total. */
  method SumOne(adj: Adjacency, u: int, d0: seq<int>, q0: seq<int>, h: int, j: int, ghost base: int, ghost all: int,
                total0: int)
      returns (d: seq<int>, q: seq<int>, total: int)
    requires Scanning(adj, {}, u, d0, q0, h, j, base, all) && j < |adj[q0[h - 1]]| && total0 == SumPos(d0)
    ensures h <= |q| && q[h - 1] == q0[h - 1] && Scanning(adj, {}, u, d, q, h, j + 1, base, all)
    ensures total == SumPos(d)
  {
    ScanNeighbour(adj, {}, u, d0, q0, h, j, base, all);
    var cur := q0[h - 1];
    var w := adj[cur][j];
    d, q, total := d0, q0, total0;
    if d0[w] == -1 {
      d, q := d0[w := d0[cur] + 1], q0 + [w];
      total := total0 + d[w];
      SumPosUpdate(d0, w, d0[cur] + 1);
    }
    ScanStep(adj, {}, u, d0, q0, h, j, base, all, d, q);
  }

  // ---------------------------------------------------------------------
  // closenesses(u, dtotals)

  /** `totals` is `dtotals` with each positive label of `d` added at its
      node; unreached nodes and the source add nothing. */
  ghost predicate Added(d: seq<int>, dtotals: seq<int>, totals: seq<int>) {
    |totals| == |dtotals| && |d| <= |dtotals| &&
    forall x :: 0 <= x < |dtotals| ==> totals[x] == dtotals[x] + (if x < |d| && d[x] > 0 then d[x] else 0)
  }

  /** `closenesses(u, dtotals)`: a full breadth-first search from `u` that
      adds the distance of every node it reaches, other than `u`, into that
      node's entry of the caller's accumulator, and returns the distances. */
  method Closenesses(adj: Adjacency, u: int, dtotals: seq<int>) returns (d: seq<int>, totals: seq<int>)
    requires WellFormed(adj) && 0 <= u < |adj| && |dtotals| >= |adj|
    ensures d == DistVec(adj, {}, u)
    ensures |totals| == |dtotals|
    ensures forall x :: 0 <= x < |dtotals| ==>
      totals[x] == dtotals[x] + (if x < |adj| && Dist(adj, {}, u, x) > 0 then Dist(adj, {}, u, x) else 0)
  {
    d := Initial(|adj|, u);
    var q := [u];
    var h := 0;
    totals := dtotals;
    OuterStart(adj, {}, u);
    while h < |q|
      invariant Outer(adj, {}, u, d, q, h) && Added(d, dtotals, totals)
      decreases Count(d, -1), |q| - h
    {
      OuterPop(adj, {}, u, d, q, h);
      d, q, totals := ScanAdd(adj, u, d, q, h + 1, dtotals, totals);
      h := h + 1;
    }
    OuterDone(adj, {}, u, d, q);
  }

  /** The inner loop of `closenesses`. */
  method ScanAdd(adj: Adjacency, u: int, d0: seq<int>, q0: seq<int>, h: int, ghost dtotals: seq<int>, totals0: seq<int>)
      returns (d: seq<int>, q: seq<int>, totals: seq<int>)
    requires Inner(adj, {}, u, d0, q0, h, 0) && Added(d0, dtotals, totals0)
    ensures Outer(adj, {}, u, d, q, h) && Added(d, dtotals, totals)
    ensures Count(d, -1) + |q| == Count(d0, -1) + |q0| && |q| >= |q0|
  {
    d, q, totals := d0, q0, totals0;
    ghost var all := Count(d0, -1) + |q0|;
    var j := 0;
    while j < |adj[q[h - 1]]|
      invariant Scanning(adj, {}, u, d, q, h, j, |q0|, all) && Added(d, dtotals, totals)
      decreases |adj[q[h - 1]]| - j
    {
      d, q, totals := AddOne(adj, u, d, q, h, j, |q0|, all, dtotals, totals);
      j := j + 1;
    }
    ScanDone(adj, {}, u, d, q, h, |q0|, all);
  }

  /** One pass of the inner loop of `closenesses`: a newly labelled
      neighbour adds its label to its own accumulator entry. */
  method AddOne(adj: Adjacency, u: int, d0: seq<int>, q0: seq<int>, h: int, j: int, ghost base: int, ghost all: int,
                ghost dtotals: seq<int>, totals0: seq<int>)
      returns (d: seq<int>, q: seq<int>, totals: seq<int>)
    requires Scanning(adj, {}, u, d0, q0, h, j, base, all) && j < |adj[q0[h - 1]]| && Added(d0, dtotals, totals0)
    ensures h <= |q| && q[h - 1] == q0[h - 1] && Scanning(adj, {}, u, d, q, h, j + 1, base, all)
    ensures Added(d, dtotals, totals)
  {
    ScanNeighbour(adj, {}, u, d0, q0, h, j, base, all);
    var cur := q0[h - 1];
    var w := adj[cur][j];
    d, q, totals := d0, q0, totals0;
    if d0[w] == -1 {
      d, q := d0[w := d0[cur] + 1], q0 + [w];
      totals := totals0[w := totals0[w] + d[w]];
    }
    ScanStep(adj, {}, u, d0, q0, h, j, base, all, d, q);
  }

  // ---------------------------------------------------------------------
  // The exhaustive accumulation of closenessCentrality

  function Pos(z: int): int {
    if z > 0 then z else 0
  }

  /** The accumulator entry of node x after searches from the sources
      i < k with inS[i]: the sum of their distances to x, unreached
      sources adding nothing. */
  ghost function Farness(adj: Adjacency, inS: seq<bool>, k: int, x: int): int
    requires WellFormed(adj) && |inS| == |adj| && 0 <= k <= |adj|
  {
    if k == 0 then 0
    else Farness(adj, inS, k - 1, x) + (if inS[k - 1] then Pos(Dist(adj, {}, k - 1, x)) else 0)
  }

  /** The exhaustive loop of `closenessCentrality`: for i below `maxi`,
      skip the nodes out of scope and let `closenesses` add the distances
      from i into the accumulator (one accumulator: the per-thread arrays
      and their merge add up the same numbers). */
  method FarnessTotals(adj: Adjacency, inS: seq<bool>, maxi: int) returns (acc: seq<int>)
    requires WellFormed(adj) && |inS| == |adj| && 0 <= maxi <= |adj|
    ensures |acc| == |adj| && forall x :: 0 <= x < |adj| ==> acc[x] == Farness(adj, inS, maxi, x)
  {
    acc := seq(|adj|, _ => 0);
    var i := 0;
    while i < maxi
      invariant 0 <= i <= maxi
      invariant |acc| == |adj| && forall x :: 0 <= x < |adj| ==> acc[x] == Farness(adj, inS, i, x)
    {
      if inS[i] {
        var d;
        d, acc := Closenesses(adj, i, acc);
      }
      i := i + 1;
    }
  }

  /** On an undirected graph, when the scope holds every node x reaches,
      the accumulator entry of x after searches from every node in scope
      is `closenessSum(x)`: distances read the same both ways, and the
      nodes out of scope are the ones x does not reach. */
  lemma FarnessIsClosenessSum(adj: Adjacency, inS: seq<bool>, x: int)
    requires Symmetric(adj) && |inS| == |adj| && 0 <= x < |adj| && inS[x]
    requires forall v :: 0 <= v < |adj| && Reaches(adj, {}, x, v) ==> inS[v]
    ensures Farness(adj, inS, |adj|, x) == SumPos(DistVec(adj, {}, x))
  {
    FarnessPrefix(adj, inS, x, |adj|);
    assert DistVec(adj, {}, x)[..|adj|] == DistVec(adj, {}, x);
  }

  lemma {:induction false} FarnessPrefix(adj: Adjacency, inS: seq<bool>, x: int, k: int)
    requires Symmetric(adj) && |inS| == |adj| && 0 <= x < |adj| && 0 <= k <= |adj|
    requires forall v :: 0 <= v < |adj| && Reaches(adj, {}, x, v) ==> inS[v]
    ensures Farness(adj, inS, k, x) == SumPos(DistVec(adj, {}, x)[..k])
  {
    if k > 0 {
      var D := DistVec(adj, {}, x);
      FarnessPrefix(adj, inS, x, k - 1);
      assert D[..k][..k - 1] == D[..k - 1];
      var v := k - 1;
      DistUnreached(adj, {}, x, v);
      if inS[v] {
        DistSymmetric(adj, {}, x, v);
      }
    }
  }

  /** A node outside the component is reached from no source in it, so
      its accumulator entry stays 0. */
  lemma {:induction false} FarnessOutside(G: Adjacency, inL: seq<bool>, x: int, k: int)
    requires WellFormed(G) && Component(G, inL) && 0 <= x < |G| && !inL[x] && 0 <= k <= |G|
    ensures Farness(G, inL, k, x) == 0
  {
    if k > 0 {
      FarnessOutside(G, inL, x, k - 1);
      DistUnreached(G, {}, k - 1, x);
    }
  }

  /** Every node a component member reaches is in the component. */
  lemma ComponentCloses(G: Adjacency, inL: seq<bool>, x: int)
    requires Component(G, inL) && 0 <= x < |G| && inL[x]
    ensures forall v :: 0 <= v < |G| && Reaches(G, {}, x, v) ==> inL[v]
  {
  }

  // ---------------------------------------------------------------------
  // The closeness loop as written: indices below nodes(LWCC)

  /** Two components: 0-1, and the path 2-3-4, the largest. */
  function TwoParts(): Adjacency {
    [[1], [0], [3], [2, 4], [3]]
  }

  function TwoPartsLwcc(): seq<bool> {
    [false, false, true, true, true]
  }

  lemma TwoPartsShape()
    ensures Symmetric(TwoParts())
    ensures |Members(TwoPartsLwcc())| == 3
  {
    assert Members(TwoPartsLwcc()) == {2, 3, 4};
  }

  /** From node 3 the nodes 0 and 1 are not reached. */
  lemma TwoPartsApart(v: int)
    requires v == 0 || v == 1
    ensures Dist(TwoParts(), {}, 3, v) == -1
  {
    var G := TwoParts();
    assert G[2] == [3] && G[3] == [2, 4] && G[4] == [3];
    assert WellFormed(G);
    if Reaches(G, {}, 3, v) {
      var k: nat :| In(G, {}, 3, k, v);
      StaysIn(G, {2, 3, 4}, 3, k, v);
    }
    DistUnreached(G, {}, 3, v);
  }

  /** The exhaustive LWCC loop of `closenessCentrality` (src/CenGraph.cpp
      lines 90 and 105) runs i below nodes(LWCC) = 3 and skips the nodes out
      of scope, so on TwoParts it searches from node 2 alone: node 3 is
      credited with a total distance of 1, while the distances from node 3
      to the rest of its component, which closenessSum(3) adds up, total
      2. */
  lemma LwccClosenessAsWritten()
    ensures Farness(TwoParts(), TwoPartsLwcc(), 3, 3) == 1
    ensures SumPos(DistVec(TwoParts(), {}, 3)) == 2
  {
    var G, inL := TwoParts(), TwoPartsLwcc();
    TwoPartsShape();
    NeighbourDist(G, {}, 2, 3);
    NeighbourDist(G, {}, 3, 2);
    NeighbourDist(G, {}, 3, 4);
    DistAtSource(G, {}, 3);
    TwoPartsApart(0);
    TwoPartsApart(1);
    var D := DistVec(G, {}, 3);
    assert D == [-1, -1, 1, 0, 1];
    assert D[..4] == [-1, -1, 1, 0] && D[..4][..3] == [-1, -1, 1];
    assert [-1, -1, 1][..2] == [-1, -1] && [-1, -1][..1] == [-1] && [-1][..0] == [];
    assert SumPos([-1, -1, 1]) == 1;
  }

  /** Searching from every node in scope instead, node 3 is credited with
      closenessSum(3). */
  lemma LwccClosenessIntended()
    ensures Farness(TwoParts(), TwoPartsLwcc(), 5, 3) == SumPos(DistVec(TwoParts(), {}, 3)) == 2
  {
    var G, inL := TwoParts(), TwoPartsLwcc();
    TwoPartsShape();
    assert G[2] == [3] && G[3] == [2, 4] && G[4] == [3];
    forall v | 0 <= v < 5 && Reaches(G, {}, 3, v)
      ensures inL[v]
    {
      var k: nat :| In(G, {}, 3, k, v);
      StaysIn(G, {2, 3, 4}, 3, k, v);
    }
    FarnessIsClosenessSum(G, inL, 3);
    LwccClosenessAsWritten();
  }

  // ---------------------------------------------------------------------
  // Degree centralities

  /** `outdegreeCentrality` (and `indegreeCentrality` on the in-lists): the
      length of each of the first n lists. Their sum is the number of list
      entries. */
  method Degrees(L: seq<seq<int>>, n: int) returns (deg: seq<int>)
    requires 0 <= n <= |L|
    ensures |deg| == n && forall i :: 0 <= i < n ==> deg[i] == |L[i]|
    ensures SumPos(deg) == SumLens(L[..n])
  {
    deg := [];
    var i := 0;
    while i < n
      invariant 0 <= i <= n && |deg| == i
      invariant forall k :: 0 <= k < i ==> deg[k] == |L[k]|
      invariant SumPos(deg) == SumLens(L[..i])
    {
      assert L[..i + 1][..i] == L[..i];
      assert (deg + [|L[i]|])[..i] == deg;
      deg := deg + [|L[i]|];
      i := i + 1;
    }
  }

  // ---------------------------------------------------------------------
  // eccentricityCentrality

  /** A search from outside the skipped set that can never reach it: the
      skipped nodes make no difference. */
  lemma {:induction false} InSkipSame(adj: Adjacency, skip: set<int>, s: int, k: nat, v: int)
    requires forall w :: Reaches(adj, {}, s, w) ==> w !in skip
    ensures In(adj, skip, s, k, v) <==> In(adj, {}, s, k, v)
    decreases k
  {
    if k > 0 {
      InSkipSame(adj, skip, s, k - 1, v);
      if In(adj, skip, s, k, v) && !In(adj, skip, s, k - 1, v) {
        var p := InPred(adj, skip, s, k - 1, v);
        InSkipSame(adj, skip, s, k - 1, p);
        InStep(adj, {}, s, k - 1, p, v);
      }
      if In(adj, {}, s, k, v) && !In(adj, {}, s, k - 1, v) {
        var p := InPred(adj, {}, s, k - 1, v);
        InSkipSame(adj, skip, s, k - 1, p);
        assert Reaches(adj, {}, s, v);
        InStep(adj, skip, s, k - 1, p, v);
      }
    }
  }

  lemma EccSkipSame(adj: Adjacency, skip: set<int>, s: int)
    requires WellFormed(adj) && 0 <= s < |adj|
    requires forall w :: Reaches(adj, {}, s, w) ==> w !in skip
    ensures Ecc(adj, skip, s) == Ecc(adj, {}, s)
  {
    forall v | 0 <= v < |adj|
      ensures Dist(adj, skip, s, v) == Dist(adj, {}, s, v)
    {
      DistUnreached(adj, skip, s, v);
      DistUnreached(adj, {}, s, v);
      if Reaches(adj, skip, s, v) {
        var k :| In(adj, skip, s, k, v);
        InSkipSame(adj, skip, s, k, v);
      }
      if Reaches(adj, {}, s, v) {
        var k :| In(adj, {}, s, k, v);
        InSkipSame(adj, skip, s, k, v);
        var r := Dist(adj, {}, s, v);
        InSkipSame(adj, skip, s, r, v);
        if r > 0 {
          InSkipSame(adj, skip, s, r - 1, v);
        }
        DistIsFirstReach(adj, skip, s, v, r);
      }
    }
    assert DistVec(adj, skip, s) == DistVec(adj, {}, s);
  }

  /** A node outside the component never reaches a pruned node, so its
      eccentricity in the pruned graph is its eccentricity. */
  lemma OutsideUnpruned(G: Adjacency, inL: seq<bool>, pruned: seq<int>, i: int)
    requires Setting(G, inL, pruned) && 0 <= i < |G| && !inL[i]
    ensures Ecc(G, Skipped(pruned), i) == Ecc(G, {}, i)
  {
    forall x | 0 <= x < |G| && pruned[x] != -1
      ensures inL[x]
    {
      PrunedIn(G, inL, pruned, x);
    }
    forall w | Reaches(G, {}, i, w)
      ensures 0 <= w < |G| && (inL[w] ==> inL[i])
    {
      var k :| In(G, {}, i, k, w);
      InRange(G, {}, i, k, w);
      InReverse(G, {}, i, w, k);
    }
    EccSkipSame(G, Skipped(pruned), i);
  }

  /** The fill loop of `eccentricityCentrality`: component nodes take the
      eccentricity BoundingDiameters left behind; in scope FULL the others
      take `eccentricity(i)`, a search in the pruned graph; in scope LWCC
      they stay -1. */
  method EccentricityFill(G: Adjacency, inL: seq<bool>, pruned: seq<int>, eccs: seq<int>, full: bool)
      returns (cent: seq<int>)
    requires WellFormed(G) && |inL| == |G| && |pruned| >= |G| && |eccs| >= |G|
    ensures |cent| == |G|
    ensures forall i :: 0 <= i < |G| ==>
      cent[i] == if inL[i] then eccs[i] else if full then Ecc(G, Skipped(pruned), i) else -1
  {
    cent := seq(|G|, _ => -1);
    var i := 0;
    while i < |G|
      invariant 0 <= i <= |G| && |cent| == |G|
      invariant forall k :: 0 <= k < i ==>
        cent[k] == if inL[k] then eccs[k] else if full then Ecc(G, Skipped(pruned), k) else -1
      invariant forall k :: i <= k < |G| ==> cent[k] == -1
    {
      if inL[i] {
        cent := cent[i := eccs[i]];
      } else if full {
        var d, e := Eccentricity(G, pruned, i);
        cent := cent[i := e];
      }
      i := i + 1;
    }
  }

  /** `eccentricityCentrality` after a BoundingDiameters run on a component
      of two or more nodes: every node gets its eccentricity, except the
      nodes outside the component in scope LWCC, which get -1. */
  lemma EccentricityCentralityExact(G: Adjacency, inL: seq<bool>, pruned: seq<int>, eccs: seq<int>, full: bool,
                                    cent: seq<int>)
    requires Setting(G, inL, pruned) && |eccs| == |G| && |cent| == |G|
    requires forall i :: 0 <= i < |G| && inL[i] ==> eccs[i] == Ecc(G, {}, i)
    requires forall i :: 0 <= i < |G| ==>
      cent[i] == if inL[i] then eccs[i] else if full then Ecc(G, Skipped(pruned), i) else -1
    ensures forall i :: 0 <= i < |G| ==>
      cent[i] == if inL[i] || full then Ecc(G, {}, i) else -1
  {
    forall i | 0 <= i < |G| && !inL[i] && full
      ensures cent[i] == Ecc(G, {}, i)
    {
      OutsideUnpruned(G, inL, pruned, i);
    }
  }
}
