/** The result phase of `extremaBounding` (src/BDGraph.cpp lines 300-345),
    the procedure as a whole with its guard, and the brute-force oracles of
    the same file. Once the main loop has settled every live node, the
    largest lower bound is the diameter, the least upper bound the radius,
    and counting the nodes at those values gives the periphery and the
    center; for the eccentricity distribution every live node's bounds have
    met. With the corrected report (`fix`), these are the values of the
    whole component, equal to what the brute-force searches compute. */
module Extrema {
  import opened Seqs
  import opened Paths
  import opened Tables
  import opened LeafPruning
  import opened Bounding

  /** The node whose eccentricity stands for node i: the representative a
      pruned node was pruned onto, or i itself. */
  function Rep(pruned: seq<int>, i: int): int
    requires 0 <= i < |pruned|
  {
    if pruned[i] >= 0 then pruned[i] else i
  }

  /** r is the largest target over the live nodes, and some live node has it. */
  ghost predicate IsMaxTarget(G: Adjacency, inL: seq<bool>, pruned: seq<int>, fix: bool, r: int)
    requires |inL| == |pruned| == |G|
  {
    (forall i :: 0 <= i < |G| && Live(inL, pruned, i) ==> Target(G, pruned, fix, i) <= r) &&
    exists i :: 0 <= i < |G| && Live(inL, pruned, i) && Target(G, pruned, fix, i) == r
  }

  /** r is the least target over the live nodes, and some live node has it. */
  ghost predicate IsMinTarget(G: Adjacency, inL: seq<bool>, pruned: seq<int>, fix: bool, r: int)
    requires |inL| == |pruned| == |G|
  {
    (forall i :: 0 <= i < |G| && Live(inL, pruned, i) ==> r <= Target(G, pruned, fix, i)) &&
    exists i :: 0 <= i < |G| && Live(inL, pruned, i) && Target(G, pruned, fix, i) == r
  }

  /** Every live node is settled for the quantity asked for. */
  ghost predicate AllResolved(G: Adjacency, inL: seq<bool>, pruned: seq<int>, TYPE: int, lower: seq<int>, upper: seq<int>,
                              minlower: int, maxlower: int, minupper: int, maxupper: int)
    requires |inL| == |pruned| == |G| == |lower| == |upper|
  {
    forall i :: 0 <= i < |G| && Live(inL, pruned, i) ==>
      Resolved(TYPE, lower[i], upper[i], minlower, maxlower, minupper, maxupper)
  }

  /** The eccentricity vector the distribution run leaves: for every
      component node the target of the node standing for it, 0 elsewhere. */
  ghost predicate Distribution(G: Adjacency, inL: seq<bool>, pruned: seq<int>, fix: bool, ecc: seq<int>)
    requires |inL| == |pruned| == |G|
  {
    |ecc| == |G| &&
    forall i :: 0 <= i < |G| ==> ecc[i] == if inL[i] then Target(G, pruned, fix, Rep(pruned, i)) else 0
  }

  // ---------------------------------------------------------------------
  // What the settled bounds say.

  /** For the diameter and the periphery the largest lower bound is the
      largest target: every settled node's upper bound is at most it, or
      its bounds met, and the node holding it has at least that target. */
  lemma MaxLowerIsMax(G: Adjacency, inL: seq<bool>, pruned: seq<int>, fix: bool, L: int, TYPE: int,
                      lower: seq<int>, upper: seq<int>, minlower: int, maxlower: int, minupper: int, maxupper: int,
                      wml: int, wxl: int, wmu: int, wxu: int)
    requires Setting(G, inL, pruned) && Sound(G, inL, pruned, fix, lower, upper, L)
    requires TYPE == 1 || TYPE == 4
    requires AllResolved(G, inL, pruned, TYPE, lower, upper, minlower, maxlower, minupper, maxupper)
    requires Attained(inL, pruned, lower, upper, minlower, maxlower, minupper, maxupper, wml, wxl, wmu, wxu)
    ensures IsMaxTarget(G, inL, pruned, fix, maxlower)
  {
    forall i | 0 <= i < |G| && Live(inL, pruned, i)
      ensures Target(G, pruned, fix, i) <= maxlower
    {
      assert Resolved(TYPE, lower[i], upper[i], minlower, maxlower, minupper, maxupper);
    }
    assert Live(inL, pruned, wxl) && Target(G, pruned, fix, wxl) == maxlower;
  }

  /** For the radius and the center the least upper bound is the least target. */
  lemma MinUpperIsMin(G: Adjacency, inL: seq<bool>, pruned: seq<int>, fix: bool, L: int, TYPE: int,
                      lower: seq<int>, upper: seq<int>, minlower: int, maxlower: int, minupper: int, maxupper: int,
                      wml: int, wxl: int, wmu: int, wxu: int)
    requires Setting(G, inL, pruned) && Sound(G, inL, pruned, fix, lower, upper, L)
    requires TYPE == 2 || TYPE == 5
    requires AllResolved(G, inL, pruned, TYPE, lower, upper, minlower, maxlower, minupper, maxupper)
    requires Attained(inL, pruned, lower, upper, minlower, maxlower, minupper, maxupper, wml, wxl, wmu, wxu)
    ensures IsMinTarget(G, inL, pruned, fix, minupper)
  {
    forall i | 0 <= i < |G| && Live(inL, pruned, i)
      ensures minupper <= Target(G, pruned, fix, i)
    {
      assert Resolved(TYPE, lower[i], upper[i], minlower, maxlower, minupper, maxupper);
    }
    assert Live(inL, pruned, wmu) && Target(G, pruned, fix, wmu) == minupper;
  }

  /** After a periphery run a live node's lower bound is the largest target
      exactly when its target is. */
  lemma PeripheryMembers(G: Adjacency, inL: seq<bool>, pruned: seq<int>, fix: bool, L: int,
                         lower: seq<int>, upper: seq<int>, minlower: int, maxlower: int, minupper: int, maxupper: int,
                         wml: int, wxl: int, wmu: int, wxu: int, i: int)
    requires Setting(G, inL, pruned) && Sound(G, inL, pruned, fix, lower, upper, L)
    requires AllResolved(G, inL, pruned, 4, lower, upper, minlower, maxlower, minupper, maxupper)
    requires Attained(inL, pruned, lower, upper, minlower, maxlower, minupper, maxupper, wml, wxl, wmu, wxu)
    requires 0 <= i < |G| && Live(inL, pruned, i)
    ensures lower[i] == maxlower <==> Target(G, pruned, fix, i) == maxlower
  {
    assert Resolved(4, lower[i], upper[i], minlower, maxlower, minupper, maxupper);
  }

  /** After a center run a live node's upper bound is the least target
      exactly when its target is. */
  lemma CenterMembers(G: Adjacency, inL: seq<bool>, pruned: seq<int>, fix: bool, L: int,
                      lower: seq<int>, upper: seq<int>, minlower: int, maxlower: int, minupper: int, maxupper: int,
                      wml: int, wxl: int, wmu: int, wxu: int, i: int)
    requires Setting(G, inL, pruned) && Sound(G, inL, pruned, fix, lower, upper, L)
    requires AllResolved(G, inL, pruned, 5, lower, upper, minlower, maxlower, minupper, maxupper)
    requires Attained(inL, pruned, lower, upper, minlower, maxlower, minupper, maxupper, wml, wxl, wmu, wxu)
    requires 0 <= i < |G| && Live(inL, pruned, i)
    ensures upper[i] == minupper <==> Target(G, pruned, fix, i) == minupper
  {
    assert Resolved(5, lower[i], upper[i], minlower, maxlower, minupper, maxupper);
  }

  // ---------------------------------------------------------------------
  // Neighbours, twins and eccentricities.

  /** A neighbour other than the node itself is one step away. */
  lemma NeighbourDist(G: Adjacency, skip: set<int>, c: int, w: int)
    requires WellFormed(G) && 0 <= c < |G| && w in G[c] && w != c && w !in skip
    ensures Dist(G, skip, c, w) == 1
  {
    DistAtSource(G, skip, c);
    DistEdge(G, skip, c, c, w);
    DistUnreached(G, skip, c, w);
  }

  /** In a component of two or more nodes every live node has a live
      neighbour other than itself: the neighbour through which some other
      member is reached, or, when that one was pruned, its representative,
      which hangs off the same node. */
  lemma LiveNeighbour(G: Adjacency, inL: seq<bool>, pruned: seq<int>, c: int) returns (w: int)
    requires Setting(G, inL, pruned) && |Members(inL)| >= 2 && 0 <= c < |G| && Live(inL, pruned, c)
    ensures 0 <= w < |G| && w in G[c] && w != c && Live(inL, pruned, w)
  {
    var M := Members(inL);
    assert M - {c} != {} by {
      if M - {c} == {} {
        assert M <= {c};
        SubsetCard(M, {c});
      }
    }
    var b :| b in M - {c};
    MembersReached(G, inL, b, c);
    DistUnreached(G, {}, b, c);
    var k := Dist(G, {}, b, c);
    assert k >= 1;
    var p := InPred(G, {}, b, k - 1, c);
    assert p != c;
    assert p in G[c];
    NeighbourIn(G, inL, c, p);
    if pruned[p] < 0 {
      w := p;
    } else {
      w := pruned[p];
      assert TwinOk(G, inL, pruned, p);
      var h := G[p][0];
      assert G[p] == [h];
      assert h == c;
      assert G[w] == [c];
      assert c in G[w];
      assert w in G[c];
      PrunedIn(G, inL, pruned, w);
    }
  }

  /** Every live node of a component of two or more nodes has a target of
      at least 1. */
  lemma TargetPositive(G: Adjacency, inL: seq<bool>, pruned: seq<int>, fix: bool, c: int)
    requires Setting(G, inL, pruned) && |Members(inL)| >= 2 && 0 <= c < |G| && Live(inL, pruned, c)
    ensures Target(G, pruned, fix, c) >= 1
  {
    var w := LiveNeighbour(G, inL, pruned, c);
    var S := if fix then {} else Skipped(pruned);
    NeighbourDist(G, S, c, w);
    EccBounds(G, S, c, w);
  }

  /** Of two leaves on the same node, the first is no more eccentric than
      the second: they are two steps apart, and every other node is as far
      from one as from the other. */
  lemma LeafEccBelow(G: Adjacency, a: int, b: int, h: int)
    requires Symmetric(G) && 0 <= a < |G| && 0 <= b < |G| && a != b
    requires G[a] == [h] && G[b] == [h]
    ensures Ecc(G, {}, a) <= Ecc(G, {}, b)
  {
    assert h in G[a] && h in G[b];
    assert a in G[h] && b in G[h];
    assert h != a && h != b;
    EccAttained(G, {}, a);
    var v :| 0 <= v < |G| && Dist(G, {}, a, v) == Ecc(G, {}, a);
    EccBounds(G, {}, b, v);
    EccBounds(G, {}, a, v);
    if v == a {
      DistAtSource(G, {}, a);
    } else if v == b {
      DistToHub(G, a, h);
      DistIntoLeaf(G, a, b, h);
      DistToHub(G, b, h);
      DistIntoLeaf(G, b, a, h);
      EccBounds(G, {}, b, a);
    } else if Dist(G, {}, a, v) >= 0 {
      DistSymmetric(G, {}, a, v);
      DistEdge(G, {}, v, a, h);
      DistIntoLeaf(G, v, a, h);
      DistIntoLeaf(G, v, b, h);
      DistSymmetric(G, {}, b, v);
    }
  }

  /** A pruned node is exactly as eccentric as its representative. */
  lemma EccTwin(G: Adjacency, inL: seq<bool>, pruned: seq<int>, x: int)
    requires Setting(G, inL, pruned) && 0 <= x < |G| && pruned[x] >= 0
    ensures Ecc(G, {}, x) == Ecc(G, {}, pruned[x])
  {
    var r := pruned[x];
    assert TwinOk(G, inL, pruned, x);
    var h := G[x][0];
    assert G[x] == [h];
    LeafEccBelow(G, x, r, h);
    LeafEccBelow(G, r, x, h);
  }

  /** With the corrected report, the node standing for a component node
      is live and its target is the node's own eccentricity. */
  lemma RepExact(G: Adjacency, inL: seq<bool>, pruned: seq<int>, i: int)
    requires Setting(G, inL, pruned) && 0 <= i < |G| && inL[i]
    ensures 0 <= Rep(pruned, i) < |G| && Live(inL, pruned, Rep(pruned, i))
    ensures Target(G, pruned, true, Rep(pruned, i)) == Ecc(G, {}, i)
  {
    if pruned[i] >= 0 {
      assert TwinOk(G, inL, pruned, i);
      PrunedIn(G, inL, pruned, pruned[i]);
      EccTwin(G, inL, pruned, i);
    }
  }

  /** A representative is more eccentric than the node it hangs off: that
      node's farthest node can be taken other than the representative (a
      twin is as near), and the representative is one step further from it. */
  lemma RepBeyondHub(G: Adjacency, inL: seq<bool>, pruned: seq<int>, x: int)
    requires Setting(G, inL, pruned) && 0 <= x < |G| && pruned[x] >= 0
    ensures var h := G[x][0];
      0 <= h < |G| && Live(inL, pruned, h) && Ecc(G, {}, h) < Ecc(G, {}, pruned[x])
  {
    var r := pruned[x];
    assert TwinOk(G, inL, pruned, x);
    var h := G[x][0];
    assert G[x] == [h] && G[r] == [h];
    assert h in G[x] && h in G[r];
    assert x in G[h] && r in G[h];
    assert !Leaf(G, h) by {
      assert x != r && x in G[h] && r in G[h];
    }
    assert pruned[h] < 0;
    assert h != r && h != x;
    EccAttained(G, {}, h);
    var v0 :| 0 <= v0 < |G| && Dist(G, {}, h, v0) == Ecc(G, {}, h);
    EccBounds(G, {}, h, v0);
    var v := v0;
    if v0 == r {
      NeighbourDist(G, {}, h, r);
      NeighbourDist(G, {}, h, x);
      v := x;
    }
    assert v != r && Dist(G, {}, h, v) == Ecc(G, {}, h) >= 0;
    DistSymmetric(G, {}, h, v);
    DistIntoLeaf(G, v, r, h);
    DistSymmetric(G, {}, r, v);
    EccBounds(G, {}, r, v);
  }

  /** The eccentricity of a node is below the number of nodes. */
  lemma EccBelowSize(G: Adjacency, skip: set<int>, s: int)
    requires WellFormed(G) && 0 <= s < |G|
    ensures 0 <= Ecc(G, skip, s) < |G|
  {
    EccAttained(G, skip, s);
    var v :| 0 <= v < |G| && Dist(G, skip, s, v) == Ecc(G, skip, s);
    EccBounds(G, skip, s, v);
    DistUnreached(G, skip, s, v);
    if Dist(G, skip, s, v) > 0 {
      DistBelowSize(G, skip, s, v, Dist(G, skip, s, v));
    }
  }

  // ---------------------------------------------------------------------
  // The quantities of the component.

  /** D is the diameter of the component: the largest eccentricity of its
      nodes in the whole graph. */
  ghost predicate IsDiameter(G: Adjacency, inL: seq<bool>, D: int)
    requires |inL| == |G|
  {
    (forall i :: 0 <= i < |G| && inL[i] ==> Ecc(G, {}, i) <= D) &&
    exists i :: 0 <= i < |G| && inL[i] && Ecc(G, {}, i) == D
  }

  /** R is the radius of the component: its least eccentricity. */
  ghost predicate IsRadius(G: Adjacency, inL: seq<bool>, R: int)
    requires |inL| == |G|
  {
    (forall i :: 0 <= i < |G| && inL[i] ==> R <= Ecc(G, {}, i)) &&
    exists i :: 0 <= i < |G| && inL[i] && Ecc(G, {}, i) == R
  }

  /** The nodes of the component whose eccentricity is e. */
  ghost function AtEcc(G: Adjacency, inL: seq<bool>, e: int): set<int>
    requires |inL| == |G|
  {
    set i | 0 <= i < |G| && inL[i] && Ecc(G, {}, i) == e
  }

  /** With the corrected report, the largest live target is the diameter. */
  lemma DiameterExact(G: Adjacency, inL: seq<bool>, pruned: seq<int>, D: int)
    requires Setting(G, inL, pruned) && IsMaxTarget(G, inL, pruned, true, D)
    ensures IsDiameter(G, inL, D)
  {
    forall i | 0 <= i < |G| && inL[i]
      ensures Ecc(G, {}, i) <= D
    {
      RepExact(G, inL, pruned, i);
    }
  }

  /** With the corrected report, the least live target is the radius. */
  lemma RadiusExact(G: Adjacency, inL: seq<bool>, pruned: seq<int>, R: int)
    requires Setting(G, inL, pruned) && IsMinTarget(G, inL, pruned, true, R)
    ensures IsRadius(G, inL, R)
  {
    forall i | 0 <= i < |G| && inL[i]
      ensures R <= Ecc(G, {}, i)
    {
      RepExact(G, inL, pruned, i);
    }
  }

  /** With the corrected report, the component nodes whose representative
      has target D are the periphery when D is the diameter. */
  lemma PeripheryExact(G: Adjacency, inL: seq<bool>, pruned: seq<int>, D: int)
    requires Setting(G, inL, pruned)
    ensures (set i | 0 <= i < |G| && inL[i] && Target(G, pruned, true, Rep(pruned, i)) == D) == AtEcc(G, inL, D)
  {
    forall i | 0 <= i < |G| && inL[i]
      ensures Target(G, pruned, true, Rep(pruned, i)) == Ecc(G, {}, i)
    {
      RepExact(G, inL, pruned, i);
    }
  }

  /** With the corrected report, the live nodes of least target are the
      whole center: no pruned node is central, being as eccentric as its
      representative, which is more eccentric than a live node. */
  lemma CenterExact(G: Adjacency, inL: seq<bool>, pruned: seq<int>, R: int)
    requires Setting(G, inL, pruned) && IsMinTarget(G, inL, pruned, true, R)
    ensures (set i | 0 <= i < |G| && Live(inL, pruned, i) && Target(G, pruned, true, i) == R) == AtEcc(G, inL, R)
  {
    forall i | 0 <= i < |G| && inL[i] && pruned[i] >= 0
      ensures Ecc(G, {}, i) != R
    {
      RepBeyondHub(G, inL, pruned, i);
      EccTwin(G, inL, pruned, i);
    }
  }

  /** With the corrected report, a distribution vector holds the
      eccentricity of every component node. */
  lemma DistributionExact(G: Adjacency, inL: seq<bool>, pruned: seq<int>, ecc: seq<int>)
    requires Setting(G, inL, pruned) && Distribution(G, inL, pruned, true, ecc)
    ensures forall i :: 0 <= i < |G| ==> ecc[i] == if inL[i] then Ecc(G, {}, i) else 0
  {
    forall i | 0 <= i < |G| && inL[i]
      ensures ecc[i] == Ecc(G, {}, i)
    {
      RepExact(G, inL, pruned, i);
    }
  }

  // ---------------------------------------------------------------------
  // The result phase.

  /** Lines 314-318: every pruned node takes over the lower bound of its
      representative, in node order and in place; a representative is
      never itself pruned, so each reads a value the loop has not changed. */
  method CopyPruned(lower0: seq<int>, pruned: seq<int>) returns (lower: seq<int>)
    requires |pruned| == |lower0|
    requires forall i :: 0 <= i < |pruned| && pruned[i] >= 0 ==> pruned[i] < |pruned| && pruned[pruned[i]] < 0
    ensures |lower| == |lower0|
    ensures forall i :: 0 <= i < |lower| ==> lower[i] == lower0[Rep(pruned, i)]
  {
    lower := lower0;
    for i := 0 to |pruned|
      invariant |lower| == |lower0|
      invariant forall k :: 0 <= k < |lower| ==> lower[k] == if k < i then lower0[Rep(pruned, k)] else lower0[k]
    {
      if pruned[i] >= 0 {
        lower := lower[i := lower[pruned[i]]];
      }
    }
  }

  /** The counting loops of lines 321-340: the number of positions holding x. */
  method CountEqual(s: seq<int>, x: int) returns (r: int)
    ensures r == |set i | 0 <= i < |s| && s[i] == x|
  {
    r := 0;
    for i := 0 to |s|
      invariant r == Count(s[..i], x)
    {
      assert s[..i + 1][..i] == s[..i];
      if s[i] == x {
        r := r + 1;
      }
    }
    assert s[..|s|] == s;
    assert r == Count(s, x);
    CountCard(s, x);
  }

  /** The periphery count (lines 321-329): after a periphery run and the
      copy, the nodes whose lower bound is the largest target are the
      component nodes whose representative has that target. The other
      nodes keep lower bound 0, below the largest target. */
  lemma PeripheryCount(G: Adjacency, inL: seq<bool>, pruned: seq<int>, fix: bool, L: int,
                       lower: seq<int>, upper: seq<int>, minlower: int, maxlower: int, minupper: int, maxupper: int,
                       wml: int, wxl: int, wmu: int, wxu: int, ecc: seq<int>)
    requires Setting(G, inL, pruned) && Sound(G, inL, pruned, fix, lower, upper, L) && L == |Members(inL)| && L >= 2
    requires AllResolved(G, inL, pruned, 4, lower, upper, minlower, maxlower, minupper, maxupper)
    requires Attained(inL, pruned, lower, upper, minlower, maxlower, minupper, maxupper, wml, wxl, wmu, wxu)
    requires |ecc| == |G| && forall i :: 0 <= i < |G| ==> ecc[i] == lower[Rep(pruned, i)]
    ensures (set i | 0 <= i < |ecc| && ecc[i] == maxlower) ==
            (set i | 0 <= i < |G| && inL[i] && Target(G, pruned, fix, Rep(pruned, i)) == maxlower)
  {
    MaxLowerIsMax(G, inL, pruned, fix, L, 4, lower, upper, minlower, maxlower, minupper, maxupper, wml, wxl, wmu, wxu);
    TargetPositive(G, inL, pruned, fix, wxl);
    forall i | 0 <= i < |G|
      ensures ecc[i] == maxlower <==> inL[i] && Target(G, pruned, fix, Rep(pruned, i)) == maxlower
    {
      if pruned[i] >= 0 {
        assert TwinOk(G, inL, pruned, i);
        PrunedIn(G, inL, pruned, i);
        PrunedIn(G, inL, pruned, pruned[i]);
        PeripheryMembers(G, inL, pruned, fix, L, lower, upper, minlower, maxlower, minupper, maxupper,
                         wml, wxl, wmu, wxu, pruned[i]);
      } else if inL[i] {
        PeripheryMembers(G, inL, pruned, fix, L, lower, upper, minlower, maxlower, minupper, maxupper,
                         wml, wxl, wmu, wxu, i);
      }
    }
  }

  /** The center count (lines 332-340): after a center run the nodes whose
      upper bound is the least target are the live nodes with that target.
      The other nodes keep upper bound L, above every target. */
  lemma CenterCount(G: Adjacency, inL: seq<bool>, pruned: seq<int>, fix: bool, L: int,
                    lower: seq<int>, upper: seq<int>, minlower: int, maxlower: int, minupper: int, maxupper: int,
                    wml: int, wxl: int, wmu: int, wxu: int)
    requires Setting(G, inL, pruned) && Sound(G, inL, pruned, fix, lower, upper, L) && L == |Members(inL)|
    requires AllResolved(G, inL, pruned, 5, lower, upper, minlower, maxlower, minupper, maxupper)
    requires Attained(inL, pruned, lower, upper, minlower, maxlower, minupper, maxupper, wml, wxl, wmu, wxu)
    ensures (set i | 0 <= i < |upper| && upper[i] == minupper) ==
            (set i | 0 <= i < |G| && Live(inL, pruned, i) && Target(G, pruned, fix, i) == minupper)
  {
    MinUpperIsMin(G, inL, pruned, fix, L, 5, lower, upper, minlower, maxlower, minupper, maxupper, wml, wxl, wmu, wxu);
    EccBelowComponent(G, inL, Skipped(pruned), wmu);
    EccBelowComponent(G, inL, {}, wmu);
    forall i | 0 <= i < |G| && Live(inL, pruned, i)
      ensures upper[i] == minupper <==> Target(G, pruned, fix, i) == minupper
    {
      CenterMembers(G, inL, pruned, fix, L, lower, upper, minlower, maxlower, minupper, maxupper,
                    wml, wxl, wmu, wxu, i);
    }
  }

  /** For the eccentricity distribution (and any quantity other than the
      four named ones) every live node's bounds met, so after the copy every
      component node holds the target of its representative. */
  lemma DistributionFound(G: Adjacency, inL: seq<bool>, pruned: seq<int>, fix: bool, L: int, TYPE: int,
                          lower: seq<int>, upper: seq<int>, minlower: int, maxlower: int, minupper: int, maxupper: int,
                          ecc: seq<int>)
    requires Setting(G, inL, pruned) && Sound(G, inL, pruned, fix, lower, upper, L)
    requires TYPE != 1 && TYPE != 2 && TYPE != 4 && TYPE != 5
    requires AllResolved(G, inL, pruned, TYPE, lower, upper, minlower, maxlower, minupper, maxupper)
    requires |ecc| == |G| && forall i :: 0 <= i < |G| ==> ecc[i] == lower[Rep(pruned, i)]
    ensures Distribution(G, inL, pruned, fix, ecc)
  {
    forall i | 0 <= i < |G|
      ensures ecc[i] == if inL[i] then Target(G, pruned, fix, Rep(pruned, i)) else 0
    {
      if pruned[i] >= 0 {
        assert TwinOk(G, inL, pruned, i);
        PrunedIn(G, inL, pruned, i);
        PrunedIn(G, inL, pruned, pruned[i]);
      }
      var j := Rep(pruned, i);
      if Live(inL, pruned, j) {
        assert Resolved(TYPE, lower[j], upper[j], minlower, maxlower, minupper, maxupper);
      }
    }
  }

  /** `extremaBounding(TYPE, PRUNE)` (lines 155-345) on the graph G whose
      largest weakly connected component `inL` has L nodes (-1 while the
      components are not computed). A directed graph, or a component of
      fewer than two nodes, gives 0 and an eccentricity vector of -1s.
      Otherwise the main loop settles every live node and the result is:
      for TYPE 1 the largest target, for TYPE 2 the least, for TYPE 4 the
      number of component nodes whose representative has the largest
      target, for TYPE 5 the number of live nodes with the least target,
      and for any other TYPE 0, with the target of every component node's
      representative left in `ecc`. The targets are the pruned-graph
      eccentricities as the source computes them, or the whole-graph ones
      with `fix`, for which DiameterExact, RadiusExact, PeripheryExact,
      CenterExact and DistributionExact make these the diameter, radius,
      periphery size, center size and eccentricities of the component. */
  method ExtremaBounding(G: Adjacency, inL: seq<bool>, L: int, undirected: bool, TYPE: int, PRUNE: bool, fix: bool,
                         pruned0: seq<int>)
      returns (r: int, ecc: seq<int>, pruned: seq<int>, ghost extreme: int)
    requires |inL| == |G|
    requires undirected && L >= 2 ==> Symmetric(G) && AllIncreasing(G) && Component(G, inL) && L == |Members(inL)|
    ensures !undirected || L < 2 ==> r == 0 && ecc == seq(|G|, _ => -1) && pruned == pruned0
    ensures undirected && L >= 2 ==> Setting(G, inL, pruned) && |ecc| == |G|
    ensures undirected && L >= 2 && PRUNE ==> CompleteBelow(G, inL, pruned, |G|)
    ensures undirected && L >= 2 && !PRUNE ==> pruned == seq(|G|, _ => -1)
    ensures undirected && L >= 2 && TYPE == 1 ==> IsMaxTarget(G, inL, pruned, fix, r)
    ensures undirected && L >= 2 && TYPE == 2 ==> IsMinTarget(G, inL, pruned, fix, r)
    ensures undirected && L >= 2 && TYPE == 4 ==>
      IsMaxTarget(G, inL, pruned, fix, extreme) &&
      r == |set i | 0 <= i < |G| && inL[i] && Target(G, pruned, fix, Rep(pruned, i)) == extreme|
    ensures undirected && L >= 2 && TYPE == 5 ==>
      IsMinTarget(G, inL, pruned, fix, extreme) &&
      r == |set i | 0 <= i < |G| && Live(inL, pruned, i) && Target(G, pruned, fix, i) == extreme|
    ensures undirected && L >= 2 && TYPE != 1 && TYPE != 2 && TYPE != 4 && TYPE != 5 ==>
      r == 0 && Distribution(G, inL, pruned, fix, ecc)
  {
    if !undirected || L < 2 {
      r, ecc, pruned, extreme := 0, seq(|G|, _ => -1), pruned0, 0;
      return;
    }
    var lower, upper, minlower, maxlower, minupper, maxupper;
    ghost var wml, wxl, wmu, wxu;
    lower, upper, pruned, minlower, maxlower, minupper, maxupper, wml, wxl, wmu, wxu :=
      Bound(G, inL, L, TYPE, PRUNE, fix);
    ecc, extreme := lower, 0;
    if TYPE == 1 {
      MaxLowerIsMax(G, inL, pruned, fix, L, TYPE, lower, upper, minlower, maxlower, minupper, maxupper, wml, wxl, wmu, wxu);
      r := maxlower;
      return;
    }
    if TYPE == 2 {
      MinUpperIsMin(G, inL, pruned, fix, L, TYPE, lower, upper, minlower, maxlower, minupper, maxupper, wml, wxl, wmu, wxu);
      r := minupper;
      return;
    }
    if PRUNE {
      forall i | 0 <= i < |pruned| && pruned[i] >= 0
        ensures pruned[i] < |pruned| && pruned[pruned[i]] < 0
      {
        assert TwinOk(G, inL, pruned, i);
      }
      ecc := CopyPruned(lower, pruned);
    }
    assert forall i :: 0 <= i < |G| ==> ecc[i] == lower[Rep(pruned, i)];
    if TYPE == 4 {
      r := CountEqual(ecc, maxlower);
      PeripheryCount(G, inL, pruned, fix, L, lower, upper, minlower, maxlower, minupper, maxupper,
                     wml, wxl, wmu, wxu, ecc);
      MaxLowerIsMax(G, inL, pruned, fix, L, TYPE, lower, upper, minlower, maxlower, minupper, maxupper, wml, wxl, wmu, wxu);
      extreme := maxlower;
      return;
    }
    if TYPE == 5 {
      r := CountEqual(upper, minupper);
      CenterCount(G, inL, pruned, fix, L, lower, upper, minlower, maxlower, minupper, maxupper, wml, wxl, wmu, wxu);
      MinUpperIsMin(G, inL, pruned, fix, L, TYPE, lower, upper, minlower, maxlower, minupper, maxupper, wml, wxl, wmu, wxu);
      extreme := minupper;
      return;
    }
    DistributionFound(G, inL, pruned, fix, L, TYPE, lower, upper, minlower, maxlower, minupper, maxupper, ecc);
    r := 0;
  }

  /** extremaBounding with the corrected report, its results stated over
      the component itself: the diameter, the radius, the number of nodes at
      either, or every eccentricity. */
  method ComponentExtrema(G: Adjacency, inL: seq<bool>, L: int, undirected: bool, TYPE: int, PRUNE: bool,
                          pruned0: seq<int>)
      returns (r: int, ecc: seq<int>, pruned: seq<int>, ghost extreme: int)
    requires |inL| == |G|
    requires undirected && L >= 2 ==> Symmetric(G) && AllIncreasing(G) && Component(G, inL) && L == |Members(inL)|
    ensures !undirected || L < 2 ==> r == 0 && ecc == seq(|G|, _ => -1) && pruned == pruned0
    ensures undirected && L >= 2 ==> Setting(G, inL, pruned) && |ecc| == |G|
    ensures undirected && L >= 2 && PRUNE ==> CompleteBelow(G, inL, pruned, |G|)
    ensures undirected && L >= 2 && !PRUNE ==> pruned == seq(|G|, _ => -1)
    ensures undirected && L >= 2 && TYPE == 1 ==> IsDiameter(G, inL, r)
    ensures undirected && L >= 2 && TYPE == 2 ==> IsRadius(G, inL, r)
    ensures undirected && L >= 2 && TYPE == 4 ==> IsDiameter(G, inL, extreme) && r == |AtEcc(G, inL, extreme)|
    ensures undirected && L >= 2 && TYPE == 5 ==> IsRadius(G, inL, extreme) && r == |AtEcc(G, inL, extreme)|
    ensures undirected && L >= 2 && TYPE != 1 && TYPE != 2 && TYPE != 4 && TYPE != 5 ==>
      r == 0 && forall i :: 0 <= i < |G| ==> ecc[i] == if inL[i] then Ecc(G, {}, i) else 0
  {
    r, ecc, pruned, extreme := ExtremaBounding(G, inL, L, undirected, TYPE, PRUNE, true, pruned0);
    if undirected && L >= 2 {
      if TYPE == 1 {
        DiameterExact(G, inL, pruned, r);
      } else if TYPE == 2 {
        RadiusExact(G, inL, pruned, r);
      } else if TYPE == 4 {
        DiameterExact(G, inL, pruned, extreme);
        PeripheryExact(G, inL, pruned, extreme);
      } else if TYPE == 5 {
        RadiusExact(G, inL, pruned, extreme);
        CenterExact(G, inL, pruned, extreme);
      } else {
        DistributionExact(G, inL, pruned, ecc);
      }
    }
  }

  // ---------------------------------------------------------------------
  // Pruning and the reported eccentricity of a representative.

  /** The star with centre 0 and leaves 1 and 2: the path 1-0-2. */
  function Star(): Adjacency {
    [[1, 2], [0], [0]]
  }

  function StarLwcc(): seq<bool> {
    [true, true, true]
  }

  /** On the star, pruning keeps leaf 1 as the representative and prunes
      leaf 2 onto it. */
  lemma StarPruned(pruned: seq<int>)
    requires Setting(Star(), StarLwcc(), pruned) && CompleteBelow(Star(), StarLwcc(), pruned, 3)
    ensures pruned == [-1, -2, 1]
  {
    var G, inL := Star(), StarLwcc();
    assert Leaf(G, 1) && Leaf(G, 2) && G[1] == G[2] && G[1][0] == 0 && inL[0];
    assert !Leaf(G, 0) && G[0] != G[1] && 1 in G[0];
    assert pruned[0] == -1;
    assert pruned[1] == -2;
    assert pruned[2] == 1;
  }

  /** A skipped node other than the start is never reached. */
  lemma {:induction false} NeverIn(G: Adjacency, skip: set<int>, s: int, k: nat, v: int)
    requires v in skip && v != s
    ensures !In(G, skip, s, k, v)
    decreases k
  {
    if k > 0 {
      NeverIn(G, skip, s, k - 1, v);
    }
  }

  /** The diameter of the star is 2, leaf to leaf. */
  lemma StarDiameter()
    ensures IsDiameter(Star(), StarLwcc(), 2)
  {
    var G := Star();
    assert Symmetric(G) by {
      assert forall u, v :: 0 <= u < 3 && v in G[u] ==> 0 <= v < 3 && u in G[v];
    }
    assert G[1] == [0] && G[2] == [0];
    DistToHub(G, 1, 0);
    DistIntoLeaf(G, 1, 2, 0);
    EccBounds(G, {}, 1, 2);
    forall i | 0 <= i < 3
      ensures Ecc(G, {}, i) <= 2
    {
      EccBelowSize(G, {}, i);
    }
  }

  /** In the pruned star each live node sees only the other one. */
  lemma StarEccPruned(i: int)
    requires 0 <= i <= 1
    ensures Ecc(Star(), {2}, i) == 1
  {
    var G := Star();
    assert WellFormed(G);
    assert 1 - i in G[i];
    DistAtSource(G, {2}, i);
    NeighbourDist(G, {2}, i, 1 - i);
    DistUnreached(G, {2}, i, 2);
    forall k: nat
      ensures !In(G, {2}, i, k, 2)
    {
      NeverIn(G, {2}, i, k, 2);
    }
    var D := DistVec(G, {2}, i);
    assert D[i] == 0 && D[1 - i] == 1 && D[2] == -1;
    Max0Unique(D, 1);
  }

  /** On the star the diameter is 2 (leaf to leaf), but with the pruned
      search the live nodes 0 and 1 each see eccentricity 1: a diameter run
      that reports pruned-graph eccentricities, as lines 213 and 302-305
      do, returns 1. */
  lemma StarDiameterAsWritten(pruned: seq<int>, r: int)
    requires Setting(Star(), StarLwcc(), pruned) && CompleteBelow(Star(), StarLwcc(), pruned, 3)
    requires IsMaxTarget(Star(), StarLwcc(), pruned, false, r)
    ensures r == 1
    ensures IsDiameter(Star(), StarLwcc(), 2)
  {
    StarPruned(pruned);
    assert Skipped(pruned) == {2};
    var i :| 0 <= i < 3 && Live(StarLwcc(), pruned, i) && EccP(Star(), pruned, i) == r;
    assert i != 2;
    StarEccPruned(i);
    StarDiameter();
  }

  // ---------------------------------------------------------------------
  // The brute-force oracles.

  /** The status test of a pass of the APSP loops: it divides by zero, which
      C++ leaves undefined, or it says whether pass i shows its percentage. */
  datatype Status = DivideByZero | Shown(due: bool)

  /** The status test `i % (n / 100) == 0` of `diameterAPSP` and
      `radiusAPSP` (lines 50 and 67) as written, on a graph of n nodes. */
  function StatusAsWritten(i: nat, n: nat): (r: Status)
    ensures r == DivideByZero <==> n < 100
  {
    if n / 100 == 0 then DivideByZero else Shown(i % (n / 100) == 0)
  }

  /** On every graph of 1 to 99 nodes the first pass, i = 0, of both APSP
      loops divides by zero, so neither returns. */
  lemma ApspSmallGraphs(n: nat)
    requires 1 <= n < 100
    ensures StatusAsWritten(0, n) == DivideByZero
  {
  }

  /** The status test with the divisor kept at 1 or more, as the other
      status lines of the library write it (`max(1, n / 100)`): defined on
      every graph, and the same test wherever the one as written is. */
  function StatusGuarded(i: nat, n: nat): (due: bool)
    ensures n >= 100 ==> StatusAsWritten(i, n) == Shown(due)
    ensures n < 100 ==> due
  {
    i % Max(1, n / 100) == 0
  }

  /** `diameterAPSP` (lines 44-56) once the components are computed: a full
      search from every component node, keeping the largest eccentricity.
      The result is the diameter, or 0 for an empty component. The status
      line it prints is left out; with the guarded test of StatusGuarded
      the loop completes on every graph (see ApspSmallGraphs for the test
      as written). */
  method DiameterApsp(G: Adjacency, inL: seq<bool>) returns (diameter: int)
    requires WellFormed(G) && |inL| == |G|
    ensures (exists i :: 0 <= i < |G| && inL[i]) ==> IsDiameter(G, inL, diameter)
    ensures (forall i :: 0 <= i < |G| ==> !inL[i]) ==> diameter == 0
  {
    var none := seq(|G|, _ => -1);
    NoPruning(G, inL);
    diameter := 0;
    for i := 0 to |G|
      invariant diameter >= 0
      invariant forall k :: 0 <= k < i && inL[k] ==> Ecc(G, {}, k) <= diameter
      invariant diameter == 0 || exists k :: 0 <= k < i && inL[k] && Ecc(G, {}, k) == diameter
    {
      if inL[i] {
        var d, e := Eccentricity(G, none, i);
        diameter := Max(diameter, e);
      }
    }
    if diameter == 0 && exists i :: 0 <= i < |G| && inL[i] {
      var k :| 0 <= k < |G| && inL[k];
      EccBounds(G, {}, k, k);
    }
  }

  /** `radiusAPSP` (lines 60-72) once the components are computed: a full
      search from every component node, keeping the least eccentricity
      below the starting value n. The result is the radius, or n for an
      empty component. As for DiameterApsp, the status line is left out and
      the loop completes on every graph. */
  method RadiusApsp(G: Adjacency, inL: seq<bool>) returns (rad: int)
    requires WellFormed(G) && |inL| == |G|
    ensures (exists i :: 0 <= i < |G| && inL[i]) ==> IsRadius(G, inL, rad)
    ensures (forall i :: 0 <= i < |G| ==> !inL[i]) ==> rad == |G|
  {
    var none := seq(|G|, _ => -1);
    NoPruning(G, inL);
    rad := |G|;
    for i := 0 to |G|
      invariant forall k :: 0 <= k < i && inL[k] ==> rad <= Ecc(G, {}, k)
      invariant rad == |G| || exists k :: 0 <= k < i && inL[k] && Ecc(G, {}, k) == rad
      invariant (exists k :: 0 <= k < i && inL[k]) ==> rad < |G|
    {
      if inL[i] {
        var d, e := Eccentricity(G, none, i);
        EccBelowSize(G, {}, i);
        rad := Min(rad, e);
      }
    }
  }

  /** `eccentricitiesAPSP` (lines 131-138): a full search from every node of
      the graph, in or out of the component, with pruning switched off. */
  method EccentricitiesApsp(G: Adjacency) returns (ecc: seq<int>, pruned: seq<int>)
    requires WellFormed(G)
    ensures |ecc| == |G| && forall i :: 0 <= i < |G| ==> ecc[i] == Ecc(G, {}, i)
    ensures pruned == seq(|G|, _ => -1)
  {
    pruned := seq(|G|, _ => -1);
    NoPruning(G, seq(|G|, _ => false));
    ecc := seq(|G|, _ => 0);
    for i := 0 to |G|
      invariant |ecc| == |G|
      invariant forall k :: 0 <= k < i ==> ecc[k] == Ecc(G, {}, k)
    {
      var d, e := Eccentricity(G, pruned, i);
      ecc := ecc[i := e];
    }
  }
}
