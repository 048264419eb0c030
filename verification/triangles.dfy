/** `trianglesWedgesAround(u)`: the number of triangles through a node and
    the number of wedges (pairs of distinct neighbours) centred on it, with
    edge direction ignored. A wedge is a pair of neighbours; a triangle is a
    wedge whose two ends are joined by an edge. */
module Triangles {
  import opened Seqs
  import opened Tables

  /** The neighbours the count runs over: the out-list of an undirected
      graph, the sorted and deduplicated union of out- and in-list of a
      directed one. */
  function Around(E: seq<seq<int>>, rE: seq<seq<int>>, u: int, undirected: bool): (t: seq<int>)
    requires 0 <= u < |E| && |rE| == |E|
    ensures forall y :: y in t <==> y in E[u] || (!undirected && y in rE[u])
    ensures !undirected ==> Increasing(t)
  {
    if undirected then E[u] else Dedup(E[u] + rE[u])
  }

  /** The neighbours at positions i and j, neither of them u itself and
      distinct, are joined by an edge in one direction or the other. */
  predicate Joined(E: seq<seq<int>>, t: seq<int>, u: int, i: int, j: int)
    requires 0 <= i < |t| && 0 <= j < |t|
  {
    ((0 <= t[i] < |E| && t[j] in E[t[i]]) || (0 <= t[j] < |E| && t[i] in E[t[j]])) &&
    t[i] != u && t[j] != u && t[i] != t[j]
  }

  /** The number of positions j' in [j, |t|) whose neighbour is joined to
      the one at position i. */
  ghost function Hits(E: seq<seq<int>>, t: seq<int>, u: int, i: int, j: int): nat
    requires 0 <= i < |t| && i < j <= |t|
    decreases |t| - j
  {
    if j == |t| then 0 else (if Joined(E, t, u, i, j) then 1 else 0) + Hits(E, t, u, i, j + 1)
  }

  /** The number of joined position pairs i' < j with i' >= i: the triangles
      through u, each counted once. */
  ghost function Tri(E: seq<seq<int>>, t: seq<int>, u: int, i: int): nat
    requires 0 <= i <= |t|
    decreases |t| - i
  {
    if i == |t| then 0 else Hits(E, t, u, i, i + 1) + Tri(E, t, u, i + 1)
  }

  /** The number of positions in [j, |t|) that do not hold u. */
  ghost function Others(t: seq<int>, u: int, j: int): nat
    requires 0 <= j <= |t|
    decreases |t| - j
  {
    if j == |t| then 0 else (if t[j] != u then 1 else 0) + Others(t, u, j + 1)
  }

  /** The number of unordered pairs of k items. */
  ghost function Pairs(k: nat): nat {
    if k == 0 then 0 else Pairs(k - 1) + (k - 1)
  }

  lemma {:induction false} PairsClosedForm(k: nat)
    ensures Pairs(k) == k * (k - 1) / 2
  {
    if k > 0 {
      PairsClosedForm(k - 1);
      assert k * (k - 1) == (k - 1) * (k - 2) + 2 * (k - 1);
    }
  }

  lemma {:induction false} HitsBelow(E: seq<seq<int>>, t: seq<int>, u: int, i: int, j: int)
    requires 0 <= i < |t| && i < j <= |t|
    ensures Hits(E, t, u, i, j) <= Others(t, u, j)
    ensures t[i] == u ==> Hits(E, t, u, i, j) == 0
    decreases |t| - j
  {
    if j < |t| {
      HitsBelow(E, t, u, i, j + 1);
    }
  }

  /** No more triangles than pairs of neighbours other than u. */
  lemma {:induction false} TriBelow(E: seq<seq<int>>, t: seq<int>, u: int, i: int)
    requires 0 <= i <= |t|
    ensures Tri(E, t, u, i) <= Pairs(Others(t, u, i))
    decreases |t| - i
  {
    if i < |t| {
      TriBelow(E, t, u, i + 1);
      HitsBelow(E, t, u, i, i + 1);
    }
  }

  /** In a list without repeats, the positions other than u are all but
      the one position of u, if u occurs. */
  lemma {:induction false} OthersDistinct(t: seq<int>, u: int, j: int)
    requires Increasing(t) && 0 <= j <= |t|
    ensures Others(t, u, j) == (|t| - j) - (if u in t[j..] then 1 else 0)
    decreases |t| - j
  {
    if j < |t| {
      OthersDistinct(t, u, j + 1);
      assert t[j..] == [t[j]] + t[j + 1..];
      if t[j] == u {
        assert u !in t[j + 1..] by {
          forall k | j + 1 <= k < |t|
            ensures t[k] != u
          {
            assert t[j] < t[k];
          }
        }
      }
    }
  }

  /** The triangle loop of `trianglesWedgesAround`: every pair of positions
      i < j is tested once, in row order. */
  method CountTriangles(E: seq<seq<int>>, t: seq<int>, u: int) returns (triangles: int)
    ensures triangles == Tri(E, t, u, 0)
  {
    triangles := 0;
    var i := 0;
    while i < |t|
      invariant 0 <= i <= |t|
      invariant triangles + Tri(E, t, u, i) == Tri(E, t, u, 0)
    {
      var j := i + 1;
      ghost var row := triangles;
      while j < |t|
        invariant i + 1 <= j <= |t|
        invariant triangles - row + Hits(E, t, u, i, j) == Hits(E, t, u, i, i + 1)
      {
        if Joined(E, t, u, i, j) {
          triangles := triangles + 1;
        }
        j := j + 1;
      }
      i := i + 1;
    }
  }

  /** `trianglesWedgesAround(u)`. The triangles are the joined pairs of
      distinct neighbours other than u; the wedges are all pairs of
      distinct neighbours other than u, whose number the source computes as
      k(k-1)/2 with k the neighbour count less one for a self-loop. The
      product is formed here without the 32-bit limit of the source (see
      WedgesAsWritten). Every triangle is a wedge. */
  method TrianglesWedges(E: seq<seq<int>>, rE: seq<seq<int>>, hs: seq<bool>, u: int, undirected: bool)
      returns (triangles: int, wedges: int)
    requires 0 <= u < |E| && |rE| == |E|
    requires SelfLoops(E, hs) && Covers(E, rE)
    requires undirected ==> Increasing(E[u])
    ensures var t := Around(E, rE, u, undirected);
      triangles == Tri(E, t, u, 0) &&
      wedges == Pairs(Others(t, u, 0)) &&
      0 <= triangles <= wedges
  {
    var t := if undirected then E[u] else Dedup(E[u] + rE[u]);
    triangles := CountTriangles(E, t, u);
    var potential := |t|;
    if hs[u] {
      potential := potential - 1;
    }
    OthersDistinct(t, u, 0);
    assert t[0..] == t;
    assert u in t <==> hs[u] by {
      assert u in rE[u] ==> u in E[u];
    }
    wedges := potential * (potential - 1) / 2;
    PairsClosedForm(potential);
    TriBelow(E, t, u, 0);
  }

  /** The value of a 32-bit signed product on the usual two's-complement
      hardware: the mathematical value reduced into [-2^31, 2^31). */
  function Wrap32(x: int): (r: int)
    ensures -0x8000_0000 <= r < 0x8000_0000
    ensures -0x8000_0000 <= x < 0x8000_0000 ==> r == x
  {
    var m := x % 0x1_0000_0000;
    if m >= 0x8000_0000 then m - 0x1_0000_0000 else m
  }

  /** C++ integer division, which truncates toward zero. */
  function DivTrunc(a: int, b: int): (r: int)
    requires b > 0
    ensures a >= 0 ==> r == a / b
    ensures a < 0 ==> r <= 0
  {
    if a >= 0 then a / b else -((-a) / b)
  }

  /** The wedge count as the source forms it: `wedgePotential` and the
      product are `int`, so the product wraps before it is halved. */
  function WedgesAsWritten(k: int): int {
    DivTrunc(Wrap32(k * (k - 1)), 2)
  }

  /** Up to 46341 neighbours the 32-bit product is exact. */
  lemma WedgesExactBelow(k: int)
    requires 0 <= k <= 46341
    ensures WedgesAsWritten(k) == Pairs(k)
  {
    PairsClosedForm(k);
    if k > 0 {
      MulMono(k, 46341, k - 1);
      MulMono(k - 1, 46340, 46341);
      assert 0 <= k * (k - 1) <= 46341 * 46340 < 0x8000_0000;
    }
  }

  lemma MulMono(a: int, b: int, c: int)
    requires 0 <= a <= b && 0 <= c
    ensures a * c <= b * c && c * a <= c * b
  {
  }

  /** A node with 46342 distinct neighbours and no self-loop: the product
      46342 * 46341 = 2147534622 exceeds 2^31 - 1, wraps to a negative value,
      and the source reports a negative wedge count where there are
      1073767311 wedges. */
  lemma WedgesOverflow()
    ensures WedgesAsWritten(46342) < 0 < Pairs(46342)
    ensures Pairs(46342) == 1073767311
  {
    PairsClosedForm(46342);
  }
}
