/** The BoundingDiameters engine of src/BDGraph.cpp: the pruned
    eccentricity search `eccentricity` and the bound-tightening loop of `extremaBounding` that yields the diameter, the
    radius, the eccentricity of every node, and the sizes of the periphery
    and the center of the largest weakly connected component (LWCC) of an
    undirected graph.

    Throughout, `G` is the out-list table of the first n nodes, `inL[i]`
    says whether node i lies in the LWCC and `pruned` is the pruning table:
    -1 for a node left alone, -2 for a leaf whose sibling leaves were
    pruned (a representative), and r >= 0 for a leaf pruned as identical to
    the representative r. The pruned leaves are the nodes the searches never
    enter. */
module Bounding {
  import opened Seqs
  import opened Paths
  import opened Bfs
  import opened DistanceSearch
  import opened Tables
  import opened LeafPruning

  lemma Max0Start(n: nat, s: int)
    requires 0 <= s < n
    ensures Max0(Start(n, s)) == 0
  {
    Max0Unique(Start(n, s), 0);
  }

  /** `eccentricity(u)`: a breadth-first search from `u` over the out-lists
      that never enters a pruned node, keeping the largest label handed out.
      It leaves the distance of every node in the pruned graph behind (-1
      where unreached) and returns the eccentricity of `u` there. */
  method Eccentricity(G: Adjacency, pruned: seq<int>, u: int) returns (d: seq<int>, ecc: int)
    requires WellFormed(G) && 0 <= u < |G| && |pruned| >= |G|
    ensures d == DistVec(G, Skipped(pruned), u)
    ensures ecc == Ecc(G, Skipped(pruned), u)
  {
    ghost var P := Skipped(pruned);
    d := Initial(|G|, u);
    var q := [u];
    var h := 0;
    ecc := 0;
    OuterStart(G, P, u);
    Max0Start(|G|, u);
    while h < |q|
      invariant Outer(G, P, u, d, q, h)
      invariant ecc == Max0(d)
      decreases Count(d, -1), |q| - h
    {
      OuterPop(G, P, u, d, q, h);
      d, q, ecc := ScanEcc(G, pruned, u, d, q, h + 1, ecc);
      h := h + 1;
    }
    OuterDone(G, P, u, d, q);
  }

  /** The inner loop of `eccentricity`: scan the out-list of the node just
      popped, labelling and queueing its unlabelled unpruned neighbours and
      raising the running maximum. */
  method ScanEcc(G: Adjacency, pruned: seq<int>, u: int, d0: seq<int>, q0: seq<int>, h: int, ecc0: int)
      returns (d: seq<int>, q: seq<int>, ecc: int)
    requires Inner(G, Skipped(pruned), u, d0, q0, h, 0) && |pruned| >= |G|
    requires ecc0 == Max0(d0)
    ensures Outer(G, Skipped(pruned), u, d, q, h)
    ensures ecc == Max0(d)
    ensures Count(d, -1) + |q| == Count(d0, -1) + |q0| && |q| >= |q0|
  {
    d, q, ecc := d0, q0, ecc0;
    ghost var total := Count(d0, -1) + |q0|;
    var j := 0;
    while j < |G[q[h - 1]]|
      invariant Scanning(G, Skipped(pruned), u, d, q, h, j, |q0|, total)
      invariant ecc == Max0(d)
      decreases |G[q[h - 1]]| - j
    {
      d, q, ecc := EccOne(G, pruned, u, d, q, h, j, |q0|, total, ecc);
      j := j + 1;
    }
    ScanDone(G, Skipped(pruned), u, d, q, h, |q0|, total);
  }

  /** One pass of the inner loop of `eccentricity`. */
  method EccOne(G: Adjacency, pruned: seq<int>, u: int, d0: seq<int>, q0: seq<int>, h: int, j: int,
                ghost base: int, ghost total: int, ecc0: int)
      returns (d: seq<int>, q: seq<int>, ecc: int)
    requires Scanning(G, Skipped(pruned), u, d0, q0, h, j, base, total) && j < |G[q0[h - 1]]|
    requires |pruned| >= |G| && ecc0 == Max0(d0)
    ensures h <= |q| && q[h - 1] == q0[h - 1] && Scanning(G, Skipped(pruned), u, d, q, h, j + 1, base, total)
    ensures ecc == Max0(d)
  {
    ScanNeighbour(G, Skipped(pruned), u, d0, q0, h, j, base, total);
    var cur := q0[h - 1];
    var w := G[cur][j];
    if d0[w] == -1 && pruned[w] < 0 {
      var k := d0[cur] + 1;
      d, q := d0[w := k], q0 + [w];
      ScanStep(G, Skipped(pruned), u, d0, q0, h, j, base, total, d, q);
      Max0Raise(d0, w, k);
      ecc := if ecc0 > k then ecc0 else k;
    } else {
      d, q, ecc := d0, q0, ecc0;
      ScanStep(G, Skipped(pruned), u, d0, q0, h, j, base, total, d, q);
    }
  }

  // ---------------------------------------------------------------------
  // The setting of the bounding loop.

  /** A node the bounding loop works on: in the LWCC and not pruned. */
  predicate Live(inL: seq<bool>, pruned: seq<int>, i: int)
    requires 0 <= i < |inL| && i < |pruned|
  {
    inL[i] && pruned[i] < 0
  }

  /** A node the current round looks at: live and reached by the probe. */
  predicate Considered(inL: seq<bool>, pruned: seq<int>, d: seq<int>, i: int)
    requires 0 <= i < |inL| && i < |pruned| && i < |d|
  {
    d[i] != -1 && Live(inL, pruned, i)
  }

  /** An undirected graph, one of its components, and a pruning table
      as `pruning` leaves it (all -1 when the loop runs without pruning). */
  ghost predicate Setting(G: Adjacency, inL: seq<bool>, pruned: seq<int>) {
    Symmetric(G) && Component(G, inL) && PruneShape(G, inL, pruned)
  }

  /** The eccentricity of node i in the pruned graph. */
  ghost function EccP(G: Adjacency, pruned: seq<int>, i: int): int {
    Ecc(G, Skipped(pruned), i)
  }

  /** The eccentricity a probe is credited with: the pruned-graph value the
      search returns, raised to 2 for a representative when `fix` is set
      (its pruned twins lie two steps away, behind the hub). */
  function Reported(e: int, pruned: seq<int>, c: int, fix: bool): int
    requires 0 <= c < |pruned|
  {
    if fix && pruned[c] == -2 then Max(e, 2) else e
  }

  /** What the bounds bracket: the pruned-graph eccentricity as the source
      computes it, or the eccentricity in the whole graph when `fix` is set. */
  ghost function Target(G: Adjacency, pruned: seq<int>, fix: bool, i: int): int {
    if fix then Ecc(G, {}, i) else EccP(G, pruned, i)
  }

  /** The bounds are sound: every live node's target lies between its
      bounds, which lie in [0, L]; the other nodes keep the initial bounds. */
  ghost predicate Sound(G: Adjacency, inL: seq<bool>, pruned: seq<int>, fix: bool, lower: seq<int>, upper: seq<int>, L: int)
    requires |inL| == |pruned| == |G|
  {
    |lower| == |upper| == |G| &&
    forall i :: 0 <= i < |G| ==>
      (Live(inL, pruned, i) ==> 0 <= lower[i] <= Target(G, pruned, fix, i) <= upper[i] <= L) &&
      (!Live(inL, pruned, i) ==> lower[i] == 0 && upper[i] == L)
  }

  function Max(a: int, b: int): int { if a > b then a else b }
  function Min(a: int, b: int): int { if a < b then a else b }

  /** One round's update of a considered node's bounds from the probe's
      eccentricity `e` and its distance `di` to the probe. */
  ghost predicate Tightened(lower0: int, upper0: int, di: int, e: int, lower: int, upper: int) {
    lower == Max(lower0, Max(di, e - di)) && upper == Min(upper0, e + di)
  }

  /** The running extremes of one round over the considered nodes, each
      attained at a witness node. */
  ghost predicate Extremes(inL: seq<bool>, pruned: seq<int>, d: seq<int>, lower: seq<int>, upper: seq<int>,
                           minlower: int, maxlower: int, minupper: int, maxupper: int,
                           wml: int, wxl: int, wmu: int, wxu: int)
    requires |inL| == |pruned| == |d| == |lower| == |upper|
  {
    (forall i :: 0 <= i < |d| && Considered(inL, pruned, d, i) ==>
      minlower <= lower[i] <= maxlower && minupper <= upper[i] <= maxupper) &&
    0 <= wml < |d| && Considered(inL, pruned, d, wml) && lower[wml] == minlower &&
    0 <= wxl < |d| && Considered(inL, pruned, d, wxl) && lower[wxl] == maxlower &&
    0 <= wmu < |d| && Considered(inL, pruned, d, wmu) && upper[wmu] == minupper &&
    0 <= wxu < |d| && Considered(inL, pruned, d, wxu) && upper[wxu] == maxupper
  }

  /** What one round starts from: bounds in [0, L] and a probe whose
      eccentricity e is at most L and bounds the distance of every
      considered node. */
  ghost predicate RoundInputs(inL: seq<bool>, pruned: seq<int>, d: seq<int>, e: int, lower0: seq<int>, upper0: seq<int>, L: int)
    requires |inL| == |pruned| == |d| == |lower0| == |upper0|
  {
    forall i :: 0 <= i < |d| && Considered(inL, pruned, d, i) ==>
      0 <= lower0[i] <= L && 0 <= upper0[i] <= L && 0 <= d[i] <= e && 0 <= e <= L
  }

  /** The nodes below i have been updated, the others are untouched. */
  ghost predicate TightenedBelow(inL: seq<bool>, pruned: seq<int>, d: seq<int>, e: int,
                                 lower0: seq<int>, upper0: seq<int>, lower: seq<int>, upper: seq<int>, i: int)
    requires |inL| == |pruned| == |d| == |lower0| == |upper0|
  {
    0 <= i <= |d| && |lower| == |upper| == |d| &&
    forall k :: 0 <= k < |d| ==>
      (k < i && Considered(inL, pruned, d, k) ==> Tightened(lower0[k], upper0[k], d[k], e, lower[k], upper[k])) &&
      (!(k < i && Considered(inL, pruned, d, k)) ==> lower[k] == lower0[k] && upper[k] == upper0[k])
  }

  /** The running extremes after the nodes below i. Each has a witness
      among the considered nodes, which holds the extreme once it has been
      passed; before that the extreme still holds its starting value. */
  ghost predicate ExtremesBelow(inL: seq<bool>, pruned: seq<int>, d: seq<int>, lower: seq<int>, upper: seq<int>,
                                i: int, c: int, L: int, minlower: int, maxlower: int, minupper: int, maxupper: int,
                                wml: int, wxl: int, wmu: int, wxu: int)
    requires |inL| == |pruned| == |d| == |lower| == |upper|
  {
    0 <= i <= |d| && 0 <= c < |d| && Considered(inL, pruned, d, c) &&
    (forall k :: 0 <= k < i && Considered(inL, pruned, d, k) ==>
      minlower <= lower[k] <= maxlower && minupper <= upper[k] <= maxupper) &&
    0 <= wml < |d| && Considered(inL, pruned, d, wml) &&
    0 <= wxl < |d| && Considered(inL, pruned, d, wxl) &&
    0 <= wmu < |d| && Considered(inL, pruned, d, wmu) &&
    0 <= wxu < |d| && Considered(inL, pruned, d, wxu) &&
    (if wml < i then lower[wml] == minlower else minlower == L) &&
    (if wxl < i then lower[wxl] == maxlower else maxlower == 0) &&
    (if wmu < i then upper[wmu] == minupper else minupper == L) &&
    (if wxu < i then upper[wxu] == maxupper else maxupper == 0) &&
    (c < i ==> wml < i && wxl < i && wmu < i && wxu < i)
  }

  lemma TightenStep(inL: seq<bool>, pruned: seq<int>, d: seq<int>, e: int,
                    lower0: seq<int>, upper0: seq<int>, lower: seq<int>, upper: seq<int>, i: int, lo: int, up: int)
    requires |inL| == |pruned| == |d| == |lower0| == |upper0|
    requires TightenedBelow(inL, pruned, d, e, lower0, upper0, lower, upper, i) && i < |d|
    requires Considered(inL, pruned, d, i) && lo == Max(lower[i], Max(d[i], e - d[i])) && up == Min(upper[i], e + d[i])
    ensures TightenedBelow(inL, pruned, d, e, lower0, upper0, lower[i := lo], upper[i := up], i + 1)
  {
  }

  lemma ExtremesStep(inL: seq<bool>, pruned: seq<int>, d: seq<int>, lower: seq<int>, upper: seq<int>,
                     i: int, c: int, L: int, minlower: int, maxlower: int, minupper: int, maxupper: int,
                     wml: int, wxl: int, wmu: int, wxu: int, lo: int, up: int,
                     wml': int, wxl': int, wmu': int, wxu': int)
    requires |inL| == |pruned| == |d| == |lower| == |upper|
    requires ExtremesBelow(inL, pruned, d, lower, upper, i, c, L, minlower, maxlower, minupper, maxupper, wml, wxl, wmu, wxu)
    requires i < |d| && Considered(inL, pruned, d, i) && 0 <= lo <= L && 0 <= up <= L
    requires wml' == (if lo <= minlower || wml >= i then i else wml)
    requires wxl' == (if lo >= maxlower || wxl >= i then i else wxl)
    requires wmu' == (if up <= minupper || wmu >= i then i else wmu)
    requires wxu' == (if up >= maxupper || wxu >= i then i else wxu)
    ensures ExtremesBelow(inL, pruned, d, lower[i := lo], upper[i := up], i + 1, c, L,
      Min(lo, minlower), Max(lo, maxlower), Min(up, minupper), Max(up, maxupper),
      wml', wxl', wmu', wxu')
  {
  }

  /** The bound-update loop of one round (lines 225-247): every considered
      node's bounds are tightened from the probe, the others keep theirs,
      and the extremes of the new bounds are taken, starting from L for the
      minima and 0 for the maxima. */
  method UpdateBounds(inL: seq<bool>, pruned: seq<int>, d: seq<int>, e: int, lower0: seq<int>, upper0: seq<int>, L: int,
                      ghost c: int)
      returns (lower: seq<int>, upper: seq<int>, minlower: int, maxlower: int, minupper: int, maxupper: int,
               ghost wml: int, ghost wxl: int, ghost wmu: int, ghost wxu: int)
    requires |inL| == |pruned| == |d| == |lower0| == |upper0|
    requires 0 <= c < |d| && Considered(inL, pruned, d, c)
    requires RoundInputs(inL, pruned, d, e, lower0, upper0, L)
    ensures |lower| == |upper| == |d|
    ensures forall i :: 0 <= i < |d| ==>
      (Considered(inL, pruned, d, i) ==> Tightened(lower0[i], upper0[i], d[i], e, lower[i], upper[i])) &&
      (!Considered(inL, pruned, d, i) ==> lower[i] == lower0[i] && upper[i] == upper0[i])
    ensures Extremes(inL, pruned, d, lower, upper, minlower, maxlower, minupper, maxupper, wml, wxl, wmu, wxu)
  {
    lower, upper := lower0, upper0;
    minlower, maxlower, minupper, maxupper := L, 0, L, 0;
    wml, wxl, wmu, wxu := c, c, c, c;
    BoundsStart(inL, pruned, d, e, lower0, upper0, c, L);
    var i := 0;
    while i < |d|
      invariant TightenedBelow(inL, pruned, d, e, lower0, upper0, lower, upper, i)
      invariant ExtremesBelow(inL, pruned, d, lower, upper, i, c, L, minlower, maxlower, minupper, maxupper, wml, wxl, wmu, wxu)
    {
      lower, upper, minlower, maxlower, minupper, maxupper, wml, wxl, wmu, wxu :=
        BoundPass(inL, pruned, d, e, lower0, upper0, L, c, i,
                  lower, upper, minlower, maxlower, minupper, maxupper, wml, wxl, wmu, wxu);
      i := i + 1;
    }
    BoundsDone(inL, pruned, d, e, lower0, upper0, lower, upper, c, L,
               minlower, maxlower, minupper, maxupper, wml, wxl, wmu, wxu);
  }

  lemma BoundsStart(inL: seq<bool>, pruned: seq<int>, d: seq<int>, e: int,
                    lower0: seq<int>, upper0: seq<int>, c: int, L: int)
    requires |inL| == |pruned| == |d| == |lower0| == |upper0|
    requires 0 <= c < |d| && Considered(inL, pruned, d, c)
    ensures TightenedBelow(inL, pruned, d, e, lower0, upper0, lower0, upper0, 0)
    ensures ExtremesBelow(inL, pruned, d, lower0, upper0, 0, c, L, L, 0, L, 0, c, c, c, c)
  {
  }

  /** A node the round does not consider leaves both invariants intact. */
  lemma BoundSkip(inL: seq<bool>, pruned: seq<int>, d: seq<int>, e: int,
                  lower0: seq<int>, upper0: seq<int>, lower: seq<int>, upper: seq<int>, i: int, c: int, L: int,
                  minlower: int, maxlower: int, minupper: int, maxupper: int,
                  wml: int, wxl: int, wmu: int, wxu: int)
    requires |inL| == |pruned| == |d| == |lower0| == |upper0|
    requires TightenedBelow(inL, pruned, d, e, lower0, upper0, lower, upper, i) && i < |d|
    requires ExtremesBelow(inL, pruned, d, lower, upper, i, c, L, minlower, maxlower, minupper, maxupper, wml, wxl, wmu, wxu)
    requires !Considered(inL, pruned, d, i)
    ensures TightenedBelow(inL, pruned, d, e, lower0, upper0, lower, upper, i + 1)
    ensures ExtremesBelow(inL, pruned, d, lower, upper, i + 1, c, L, minlower, maxlower, minupper, maxupper, wml, wxl, wmu, wxu)
  {
  }

  lemma BoundsDone(inL: seq<bool>, pruned: seq<int>, d: seq<int>, e: int,
                   lower0: seq<int>, upper0: seq<int>, lower: seq<int>, upper: seq<int>, c: int, L: int,
                   minlower: int, maxlower: int, minupper: int, maxupper: int,
                   wml: int, wxl: int, wmu: int, wxu: int)
    requires |inL| == |pruned| == |d| == |lower0| == |upper0|
    requires TightenedBelow(inL, pruned, d, e, lower0, upper0, lower, upper, |d|)
    requires ExtremesBelow(inL, pruned, d, lower, upper, |d|, c, L, minlower, maxlower, minupper, maxupper, wml, wxl, wmu, wxu)
    ensures forall i :: 0 <= i < |d| ==>
      (Considered(inL, pruned, d, i) ==> Tightened(lower0[i], upper0[i], d[i], e, lower[i], upper[i])) &&
      (!Considered(inL, pruned, d, i) ==> lower[i] == lower0[i] && upper[i] == upper0[i])
    ensures Extremes(inL, pruned, d, lower, upper, minlower, maxlower, minupper, maxupper, wml, wxl, wmu, wxu)
  {
  }

  /** One pass of the bound-update loop: node i is updated when the
      round considers it and passed over otherwise. */
  method BoundPass(inL: seq<bool>, pruned: seq<int>, d: seq<int>, e: int, lower0: seq<int>, upper0: seq<int>, L: int,
                   ghost c: int, i: int, lower1: seq<int>, upper1: seq<int>,
                   minlower1: int, maxlower1: int, minupper1: int, maxupper1: int,
                   ghost wml1: int, ghost wxl1: int, ghost wmu1: int, ghost wxu1: int)
      returns (lower: seq<int>, upper: seq<int>, minlower: int, maxlower: int, minupper: int, maxupper: int,
               ghost wml: int, ghost wxl: int, ghost wmu: int, ghost wxu: int)
    requires |inL| == |pruned| == |d| == |lower0| == |upper0|
    requires RoundInputs(inL, pruned, d, e, lower0, upper0, L)
    requires TightenedBelow(inL, pruned, d, e, lower0, upper0, lower1, upper1, i) && i < |d|
    requires ExtremesBelow(inL, pruned, d, lower1, upper1, i, c, L, minlower1, maxlower1, minupper1, maxupper1, wml1, wxl1, wmu1, wxu1)
    ensures TightenedBelow(inL, pruned, d, e, lower0, upper0, lower, upper, i + 1)
    ensures ExtremesBelow(inL, pruned, d, lower, upper, i + 1, c, L, minlower, maxlower, minupper, maxupper, wml, wxl, wmu, wxu)
  {
    if d[i] != -1 && inL[i] && pruned[i] < 0 {
      lower, upper, minlower, maxlower, minupper, maxupper, wml, wxl, wmu, wxu :=
        BoundOne(inL, pruned, d, e, lower0, upper0, L, c, i,
                 lower1, upper1, minlower1, maxlower1, minupper1, maxupper1, wml1, wxl1, wmu1, wxu1);
    } else {
      BoundSkip(inL, pruned, d, e, lower0, upper0, lower1, upper1, i, c, L,
                minlower1, maxlower1, minupper1, maxupper1, wml1, wxl1, wmu1, wxu1);
      lower, upper, minlower, maxlower, minupper, maxupper := lower1, upper1, minlower1, maxlower1, minupper1, maxupper1;
      wml, wxl, wmu, wxu := wml1, wxl1, wmu1, wxu1;
    }
  }

  /** One pass of the bound-update loop, on a considered node i. */
  method BoundOne(inL: seq<bool>, pruned: seq<int>, d: seq<int>, e: int, lower0: seq<int>, upper0: seq<int>, L: int,
                  ghost c: int, i: int, lower1: seq<int>, upper1: seq<int>,
                  minlower1: int, maxlower1: int, minupper1: int, maxupper1: int,
                  ghost wml1: int, ghost wxl1: int, ghost wmu1: int, ghost wxu1: int)
      returns (lower: seq<int>, upper: seq<int>, minlower: int, maxlower: int, minupper: int, maxupper: int,
               ghost wml: int, ghost wxl: int, ghost wmu: int, ghost wxu: int)
    requires |inL| == |pruned| == |d| == |lower0| == |upper0|
    requires RoundInputs(inL, pruned, d, e, lower0, upper0, L)
    requires TightenedBelow(inL, pruned, d, e, lower0, upper0, lower1, upper1, i) && i < |d|
    requires ExtremesBelow(inL, pruned, d, lower1, upper1, i, c, L, minlower1, maxlower1, minupper1, maxupper1, wml1, wxl1, wmu1, wxu1)
    requires Considered(inL, pruned, d, i)
    ensures TightenedBelow(inL, pruned, d, e, lower0, upper0, lower, upper, i + 1)
    ensures ExtremesBelow(inL, pruned, d, lower, upper, i + 1, c, L, minlower, maxlower, minupper, maxupper, wml, wxl, wmu, wxu)
  {
    var lo, up := Max(lower1[i], Max(d[i], e - d[i])), Min(upper1[i], e + d[i]);
    TightenStep(inL, pruned, d, e, lower0, upper0, lower1, upper1, i, lo, up);
    wml := if lo <= minlower1 || wml1 >= i then i else wml1;
    wxl := if lo >= maxlower1 || wxl1 >= i then i else wxl1;
    wmu := if up <= minupper1 || wmu1 >= i then i else wmu1;
    wxu := if up >= maxupper1 || wxu1 >= i then i else wxu1;
    ExtremesStep(inL, pruned, d, lower1, upper1, i, c, L, minlower1, maxlower1, minupper1, maxupper1,
      wml1, wxl1, wmu1, wxu1, lo, up, wml, wxl, wmu, wxu);
    lower, upper := lower1[i := lo], upper1[i := up];
    minlower, maxlower := Min(lo, minlower1), Max(lo, maxlower1);
    minupper, maxupper := Min(up, minupper1), Max(up, maxupper1);
  }

  // ---------------------------------------------------------------------
  // Soundness of one probe.

  /** Two live nodes are joined in the pruned graph. */
  lemma LiveReached(G: Adjacency, inL: seq<bool>, pruned: seq<int>, a: int, b: int)
    requires Setting(G, inL, pruned) && 0 <= a < |G| && 0 <= b < |G|
    requires Live(inL, pruned, a) && Live(inL, pruned, b)
    ensures Dist(G, Skipped(pruned), a, b) >= 0
  {
    DistPruned(G, inL, pruned, a, b);
    DistUnreached(G, {}, a, b);
  }

  /** The bounds one probe gives another node in a graph walked without
      entering `skip`: with d the distance between them and e the
      eccentricity of the probe c, the eccentricity of i lies between
      max(d, e - d) and e + d. */
  lemma ProbeBoundsIn(G: Adjacency, skip: set<int>, c: int, i: int)
    requires Symmetric(G) && 0 <= c < |G| && 0 <= i < |G| && c !in skip && i !in skip
    requires Dist(G, skip, c, i) >= 0
    ensures var di := Dist(G, skip, c, i);
      var e := Ecc(G, skip, c);
      Max(di, e - di) <= Ecc(G, skip, i) <= e + di
  {
    DistSymmetric(G, skip, c, i);
    EccBounds(G, skip, i, c);
    EccAttained(G, skip, c);
    var v :| 0 <= v < |G| && Dist(G, skip, c, v) == Ecc(G, skip, c);
    EccBounds(G, skip, c, v);
    DistTriangle(G, skip, i, c, v);
    DistTriangle(G, skip, c, i, v);
    EccBounds(G, skip, i, v);
    EccAttained(G, skip, i);
    var w :| 0 <= w < |G| && Dist(G, skip, i, w) == Ecc(G, skip, i);
    EccBounds(G, skip, i, w);
    DistTriangle(G, skip, c, i, w);
    DistTriangle(G, skip, i, c, w);
    EccBounds(G, skip, c, w);
  }

  /** The bounds a live probe c gives a live node i, for either target. */
  lemma ProbeBounds(G: Adjacency, inL: seq<bool>, pruned: seq<int>, fix: bool, c: int, i: int)
    requires Setting(G, inL, pruned) && 0 <= c < |G| && 0 <= i < |G|
    requires Live(inL, pruned, c) && Live(inL, pruned, i)
    ensures var di := Dist(G, Skipped(pruned), c, i);
      var e := Target(G, pruned, fix, c);
      0 <= di && Max(di, e - di) <= Target(G, pruned, fix, i) <= e + di
  {
    LiveReached(G, inL, pruned, c, i);
    if fix {
      DistPruned(G, inL, pruned, c, i);
      ProbeBoundsIn(G, {}, c, i);
    } else {
      ProbeBoundsIn(G, Skipped(pruned), c, i);
    }
  }

  /** What a round's update does to sound bounds: they stay sound, only
      tighten, every live node is considered, and the probe's own bounds
      meet at its target. */
  lemma RoundSound(G: Adjacency, inL: seq<bool>, pruned: seq<int>, fix: bool, c: int, d: seq<int>, e: int,
                   lower0: seq<int>, upper0: seq<int>, lower: seq<int>, upper: seq<int>, L: int)
    requires Setting(G, inL, pruned) && 0 <= c < |G| && Live(inL, pruned, c)
    requires d == DistVec(G, Skipped(pruned), c) && e == Target(G, pruned, fix, c)
    requires Sound(G, inL, pruned, fix, lower0, upper0, L)
    requires |lower| == |upper| == |G|
    requires forall i :: 0 <= i < |G| ==>
      (Considered(inL, pruned, d, i) ==> Tightened(lower0[i], upper0[i], d[i], e, lower[i], upper[i])) &&
      (!Considered(inL, pruned, d, i) ==> lower[i] == lower0[i] && upper[i] == upper0[i])
    ensures Sound(G, inL, pruned, fix, lower, upper, L)
    ensures forall i :: 0 <= i < |G| && Live(inL, pruned, i) ==>
      Considered(inL, pruned, d, i) && lower0[i] <= lower[i] && upper[i] <= upper0[i]
    ensures lower[c] == upper[c] == e
  {
    forall i | 0 <= i < |G| && Live(inL, pruned, i)
      ensures Considered(inL, pruned, d, i) && lower0[i] <= lower[i] <= Target(G, pruned, fix, i) <= upper[i] <= upper0[i]
    {
      ProbeBounds(G, inL, pruned, fix, c, i);
    }
    DistAtSource(G, Skipped(pruned), c);
  }

  /** The inputs of a round's update hold for sound bounds and a live probe. */
  lemma RoundInputsHold(G: Adjacency, inL: seq<bool>, pruned: seq<int>, fix: bool, c: int, d: seq<int>, e: int,
                        lower0: seq<int>, upper0: seq<int>, L: int)
    requires Setting(G, inL, pruned) && 0 <= c < |G| && Live(inL, pruned, c) && L == |Members(inL)|
    requires d == DistVec(G, Skipped(pruned), c) && e == Target(G, pruned, fix, c)
    requires Sound(G, inL, pruned, fix, lower0, upper0, L)
    ensures RoundInputs(inL, pruned, d, e, lower0, upper0, L)
    ensures Considered(inL, pruned, d, c)
  {
    EccBelowComponent(G, inL, Skipped(pruned), c);
    EccBelowComponent(G, inL, {}, c);
    DistAtSource(G, Skipped(pruned), c);
    forall i | 0 <= i < |d| && Considered(inL, pruned, d, i)
      ensures 0 <= d[i] <= e
    {
      LiveReached(G, inL, pruned, c, i);
      if fix {
        DistPruned(G, inL, pruned, c, i);
        EccBounds(G, {}, c, i);
      } else {
        EccBounds(G, Skipped(pruned), c, i);
      }
    }
  }

  // ---------------------------------------------------------------------
  // Pruned and whole-graph eccentricities.

  /** A neighbour of a component member is a member. */
  lemma NeighbourIn(G: Adjacency, inL: seq<bool>, h: int, x: int)
    requires WellFormed(G) && Component(G, inL) && 0 <= h < |G| && inL[h] && x in G[h]
    ensures 0 <= x < |G| && inL[x]
  {
    InStep(G, {}, h, 0, h, x);
  }

  /** Two component members are joined. */
  lemma MembersReached(G: Adjacency, inL: seq<bool>, a: int, b: int)
    requires WellFormed(G) && Component(G, inL) && 0 <= a < |G| && 0 <= b < |G| && inL[a] && inL[b]
    ensures Dist(G, {}, a, b) >= 0
  {
    DistUnreached(G, {}, a, b);
  }

  /** A leaf is one step from its neighbour. */
  lemma DistToHub(G: Adjacency, x: int, h: int)
    requires WellFormed(G) && 0 <= x < |G| && G[x] == [h] && h != x
    ensures Dist(G, {}, x, h) == 1
  {
    DistAtSource(G, {}, x);
    assert h in G[x];
    DistEdge(G, {}, x, x, h);
    DistUnreached(G, {}, x, h);
  }

  /** The only way into a leaf x is through its one neighbour h. */
  lemma DistIntoLeaf(G: Adjacency, v: int, x: int, h: int)
    requires Symmetric(G) && 0 <= v < |G| && 0 <= x < |G| && G[x] == [h] && v != x
    requires Dist(G, {}, v, h) >= 0
    ensures Dist(G, {}, v, x) == Dist(G, {}, v, h) + 1
  {
    assert h in G[x];
    assert x in G[h];
    DistEdge(G, {}, v, h, x);
    var k := Dist(G, {}, v, x);
    DistUnreached(G, {}, v, x);
    assert k >= 1;
    var p := InPred(G, {}, v, k - 1, x);
    assert p in G[x];
    DistWithin(G, {}, v, p, k - 1);
  }

  /** What a pruned leaf x with representative r looks like from a live
      node i: r is live, x is as far from i as r is, except that from r
      itself x is two steps away. */
  lemma TwinSeen(G: Adjacency, inL: seq<bool>, pruned: seq<int>, i: int, x: int)
    requires Setting(G, inL, pruned) && 0 <= i < |G| && Live(inL, pruned, i)
    requires 0 <= x < |G| && pruned[x] >= 0
    ensures var r := pruned[x];
      0 <= r < |G| && Live(inL, pruned, r) && pruned[r] == -2 &&
      Dist(G, {}, i, x) == (if i == r then 2 else Dist(G, {}, i, r))
  {
    var r := pruned[x];
    var h := G[x][0];
    assert G[x] == [h];
    assert h in G[x];
    assert x in G[h];
    assert G[r] == [h];
    assert r in G[h];
    NeighbourIn(G, inL, h, r);
    MembersReached(G, inL, i, h);
    DistIntoLeaf(G, i, x, h);
    if i == r {
      DistToHub(G, r, h);
    } else {
      DistIntoLeaf(G, i, r, h);
    }
  }

  /** A representative r has a twin two steps away. */
  lemma RepTwin(G: Adjacency, inL: seq<bool>, pruned: seq<int>, r: int) returns (y: int)
    requires Setting(G, inL, pruned) && 0 <= r < |G| && pruned[r] == -2
    ensures 0 <= y < |G| && Dist(G, {}, r, y) == 2
  {
    var h := G[r][0];
    assert G[r] == [h];
    y :| y in G[h] && Leaf(G, y) && y != r;
    assert h in G[y];
    assert G[y] == [h];
    assert h != r;
    DistToHub(G, r, h);
    DistIntoLeaf(G, r, y, h);
  }

  /** The corrected report is the eccentricity in the whole graph: pruning
      loses nothing for a live node except, at a representative, the twins
      two steps away. */
  lemma ReportedExact(G: Adjacency, inL: seq<bool>, pruned: seq<int>, i: int)
    requires Setting(G, inL, pruned) && 0 <= i < |G| && Live(inL, pruned, i)
    ensures Ecc(G, {}, i) == Reported(EccP(G, pruned, i), pruned, i, true)
  {
    var P := Skipped(pruned);
    var F := DistVec(G, {}, i);
    var t := Reported(EccP(G, pruned, i), pruned, i, true);
    forall v | 0 <= v < |G|
      ensures F[v] <= t
    {
      if pruned[v] < 0 {
        DistPruned(G, inL, pruned, i, v);
        EccBounds(G, P, i, v);
      } else {
        TwinSeen(G, inL, pruned, i, v);
        var r := pruned[v];
        if i != r {
          DistPruned(G, inL, pruned, i, r);
          EccBounds(G, P, i, r);
        }
      }
    }
    EccAttained(G, P, i);
    var w :| 0 <= w < |G| && Dist(G, P, i, w) == Ecc(G, P, i);
    EccBounds(G, P, i, w);
    if t == EccP(G, pruned, i) {
      if t > 0 {
        DistUnreached(G, P, i, w);
        InAvoidsSkip(G, P, i, t, w);
        DistPruned(G, inL, pruned, i, w);
        assert F[w] == t;
      }
    } else {
      var y := RepTwin(G, inL, pruned, i);
      assert F[y] == t;
    }
    Max0Unique(F, t);
  }

  // ---------------------------------------------------------------------
  // The candidate set.

  /** The test of lines 268-275 under which a considered candidate stops
      being one: its bounds meet, or, for the quantity asked for (TYPE 1
      the diameter, 2 the radius, 4 the periphery, 5 the center), its
      bounds show it cannot attain the extreme or is already known to. */
  predicate Drops(TYPE: int, lo: int, up: int, minlower: int, maxlower: int, minupper: int, maxupper: int) {
    lo == up ||
    (TYPE == 1 && up <= maxlower && lo * 2 >= maxupper) ||
    (TYPE == 2 && lo >= minupper && (up + 1) / 2 <= minlower) ||
    (TYPE == 4 && up < maxlower && (maxlower == maxupper || lo * 2 > maxupper)) ||
    (TYPE == 5 && lo > minupper && (minlower == minupper || (up + 1) / 2 < minlower)) ||
    (TYPE == 3 && lo == up)
  }

  /** The live nodes still in the candidate set. */
  ghost function CandSet(inL: seq<bool>, pruned: seq<int>, candidate: seq<bool>): set<int>
    requires |inL| == |pruned| == |candidate|
  {
    set i | 0 <= i < |candidate| && Live(inL, pruned, i) && candidate[i]
  }

  /** A considered node that is still a candidate after the pass over it. */
  predicate Eligible(inL: seq<bool>, pruned: seq<int>, d: seq<int>, candidate: seq<bool>, k: int)
    requires |inL| == |pruned| == |d| == |candidate| && 0 <= k < |d|
  {
    candidate[k] && Considered(inL, pruned, d, k)
  }

  /** Key a strictly beats key b: lower when `least`, higher otherwise. */
  predicate Beats(a: int, b: int, least: bool) {
    if least then a < b else a > b
  }

  /** The selection rule of lines 279-292: the first eligible node is
      taken, then a node replaces it when its key ties and its degree is
      higher, or when its key beats it. */
  function Prefer(G: Adjacency, key: seq<int>, least: bool, node: int, i: int): int
    requires 0 <= i < |G| && i < |key| && -1 <= node < |G| && node < |key|
  {
    if node == -1 then i
    else if key[i] == key[node] && |G[i]| > |G[node]| then i
    else if Beats(key[i], key[node], least) then i
    else node
  }

  /** `node` is the choice among the eligible nodes below i: -1 when there
      is none, otherwise an eligible node whose key no other beats, of the
      highest degree among those with the same key, and the first among
      those with the same degree. */
  ghost predicate Pick(G: Adjacency, inL: seq<bool>, pruned: seq<int>, d: seq<int>, candidate: seq<bool>,
                       key: seq<int>, least: bool, i: int, node: int)
    requires |G| == |inL| == |pruned| == |d| == |candidate| == |key| && 0 <= i <= |d|
  {
    (node == -1 ==> forall k :: 0 <= k < i ==> !Eligible(inL, pruned, d, candidate, k)) &&
    (node != -1 ==>
      0 <= node < i && Eligible(inL, pruned, d, candidate, node) &&
      forall k :: 0 <= k < i && Eligible(inL, pruned, d, candidate, k) ==>
        !Beats(key[k], key[node], least) &&
        (key[k] == key[node] ==> |G[k]| <= |G[node]| && (|G[k]| == |G[node]| ==> node <= k)))
  }

  /** The candidates below i have been tested, the others are untouched,
      and the counter moved with the candidate set. */
  ghost predicate TestedBelow(inL: seq<bool>, pruned: seq<int>, d: seq<int>, lower: seq<int>, upper: seq<int>, TYPE: int,
                              minlower: int, maxlower: int, minupper: int, maxupper: int,
                              candidate0: seq<bool>, candidates0: int, candidate: seq<bool>, candidates: int, i: int)
    requires |inL| == |pruned| == |d| == |lower| == |upper| == |candidate0|
  {
    0 <= i <= |d| && |candidate| == |d| &&
    (forall k :: 0 <= k < |d| ==>
      candidate[k] == (candidate0[k] &&
        !(k < i && Considered(inL, pruned, d, k) && Drops(TYPE, lower[k], upper[k], minlower, maxlower, minupper, maxupper)))) &&
    candidates0 - candidates == |CandSet(inL, pruned, candidate0)| - |CandSet(inL, pruned, candidate)|
  }

  /** The candidate-update loop of one round (lines 264-293): a considered
      candidate is dropped when its bounds pass the test, the counter drops
      with it, and the next round's probes are chosen among the considered
      nodes still candidates: the least lower bound and the highest upper
      bound, ties going to the higher degree and then to the lower index. */
  method UpdateCandidates(G: Adjacency, inL: seq<bool>, pruned: seq<int>, d: seq<int>, lower: seq<int>, upper: seq<int>,
                          TYPE: int, minlower: int, maxlower: int, minupper: int, maxupper: int,
                          candidate0: seq<bool>, candidates0: int)
      returns (candidate: seq<bool>, candidates: int, minlowernode: int, maxuppernode: int)
    requires |G| == |inL| == |pruned| == |d| == |lower| == |upper| == |candidate0|
    ensures |candidate| == |candidate0|
    ensures forall k :: 0 <= k < |d| ==>
      candidate[k] == (candidate0[k] &&
        !(Considered(inL, pruned, d, k) && Drops(TYPE, lower[k], upper[k], minlower, maxlower, minupper, maxupper)))
    ensures candidates0 - candidates == |CandSet(inL, pruned, candidate0)| - |CandSet(inL, pruned, candidate)|
    ensures Pick(G, inL, pruned, d, candidate, lower, true, |d|, minlowernode)
    ensures Pick(G, inL, pruned, d, candidate, upper, false, |d|, maxuppernode)
  {
    candidate, candidates := candidate0, candidates0;
    minlowernode, maxuppernode := -1, -1;
    var i := 0;
    while i < |d|
      invariant TestedBelow(inL, pruned, d, lower, upper, TYPE, minlower, maxlower, minupper, maxupper,
                            candidate0, candidates0, candidate, candidates, i)
      invariant Pick(G, inL, pruned, d, candidate, lower, true, i, minlowernode)
      invariant Pick(G, inL, pruned, d, candidate, upper, false, i, maxuppernode)
    {
      candidate, candidates, minlowernode, maxuppernode :=
        CandPass(G, inL, pruned, d, lower, upper, TYPE, minlower, maxlower, minupper, maxupper,
                 candidate0, candidates0, candidate, candidates, minlowernode, maxuppernode, i);
      i := i + 1;
    }
  }

  /** One pass of the candidate-update loop. */
  method CandPass(G: Adjacency, inL: seq<bool>, pruned: seq<int>, d: seq<int>, lower: seq<int>, upper: seq<int>,
                  TYPE: int, minlower: int, maxlower: int, minupper: int, maxupper: int,
                  candidate0: seq<bool>, candidates0: int, candidate1: seq<bool>, candidates1: int,
                  minlowernode1: int, maxuppernode1: int, i: int)
      returns (candidate: seq<bool>, candidates: int, minlowernode: int, maxuppernode: int)
    requires |G| == |inL| == |pruned| == |d| == |lower| == |upper| == |candidate0| && i < |d|
    requires TestedBelow(inL, pruned, d, lower, upper, TYPE, minlower, maxlower, minupper, maxupper,
                         candidate0, candidates0, candidate1, candidates1, i)
    requires Pick(G, inL, pruned, d, candidate1, lower, true, i, minlowernode1)
    requires Pick(G, inL, pruned, d, candidate1, upper, false, i, maxuppernode1)
    ensures TestedBelow(inL, pruned, d, lower, upper, TYPE, minlower, maxlower, minupper, maxupper,
                        candidate0, candidates0, candidate, candidates, i + 1)
    ensures Pick(G, inL, pruned, d, candidate, lower, true, i + 1, minlowernode)
    ensures Pick(G, inL, pruned, d, candidate, upper, false, i + 1, maxuppernode)
  {
    candidate, candidates := candidate1, candidates1;
    if !candidate[i] || d[i] == -1 || !inL[i] || pruned[i] >= 0 {
      PickSkip(G, inL, pruned, d, candidate, lower, true, i, minlowernode1);
      PickSkip(G, inL, pruned, d, candidate, upper, false, i, maxuppernode1);
      TestedSkip(inL, pruned, d, lower, upper, TYPE, minlower, maxlower, minupper, maxupper,
                 candidate0, candidates0, candidate, candidates, i);
      return candidate, candidates, minlowernode1, maxuppernode1;
    }
    if Drops(TYPE, lower[i], upper[i], minlower, maxlower, minupper, maxupper) {
      candidate := candidate[i := false];
      candidates := candidates - 1;
      TestedDrop(inL, pruned, d, lower, upper, TYPE, minlower, maxlower, minupper, maxupper,
                 candidate0, candidates0, candidate1, candidates1, i);
      PickDrop(G, inL, pruned, d, candidate1, lower, true, i, minlowernode1);
      PickDrop(G, inL, pruned, d, candidate1, upper, false, i, maxuppernode1);
      return candidate, candidates, minlowernode1, maxuppernode1;
    }
    TestedSkip(inL, pruned, d, lower, upper, TYPE, minlower, maxlower, minupper, maxupper,
               candidate0, candidates0, candidate, candidates, i);
    minlowernode := Prefer(G, lower, true, minlowernode1, i);
    maxuppernode := Prefer(G, upper, false, maxuppernode1, i);
    PickStep(G, inL, pruned, d, candidate, lower, true, i, minlowernode1);
    PickStep(G, inL, pruned, d, candidate, upper, false, i, maxuppernode1);
  }

  lemma PickSkip(G: Adjacency, inL: seq<bool>, pruned: seq<int>, d: seq<int>, candidate: seq<bool>,
                 key: seq<int>, least: bool, i: int, node: int)
    requires |G| == |inL| == |pruned| == |d| == |candidate| == |key| && 0 <= i < |d|
    requires Pick(G, inL, pruned, d, candidate, key, least, i, node) && !Eligible(inL, pruned, d, candidate, i)
    ensures Pick(G, inL, pruned, d, candidate, key, least, i + 1, node)
  {
  }

  lemma PickDrop(G: Adjacency, inL: seq<bool>, pruned: seq<int>, d: seq<int>, candidate: seq<bool>,
                 key: seq<int>, least: bool, i: int, node: int)
    requires |G| == |inL| == |pruned| == |d| == |candidate| == |key| && 0 <= i < |d|
    requires Pick(G, inL, pruned, d, candidate, key, least, i, node)
    ensures Pick(G, inL, pruned, d, candidate[i := false], key, least, i + 1, node)
  {
    var c' := candidate[i := false];
    assert forall k :: 0 <= k < i ==> Eligible(inL, pruned, d, c', k) == Eligible(inL, pruned, d, candidate, k);
    assert !Eligible(inL, pruned, d, c', i);
  }

  lemma PickStep(G: Adjacency, inL: seq<bool>, pruned: seq<int>, d: seq<int>, candidate: seq<bool>,
                 key: seq<int>, least: bool, i: int, node: int)
    requires |G| == |inL| == |pruned| == |d| == |candidate| == |key| && 0 <= i < |d|
    requires Pick(G, inL, pruned, d, candidate, key, least, i, node) && Eligible(inL, pruned, d, candidate, i)
    ensures Pick(G, inL, pruned, d, candidate, key, least, i + 1, Prefer(G, key, least, node, i))
  {
  }

  lemma TestedSkip(inL: seq<bool>, pruned: seq<int>, d: seq<int>, lower: seq<int>, upper: seq<int>, TYPE: int,
                   minlower: int, maxlower: int, minupper: int, maxupper: int,
                   candidate0: seq<bool>, candidates0: int, candidate: seq<bool>, candidates: int, i: int)
    requires |inL| == |pruned| == |d| == |lower| == |upper| == |candidate0| && i < |d|
    requires TestedBelow(inL, pruned, d, lower, upper, TYPE, minlower, maxlower, minupper, maxupper,
                         candidate0, candidates0, candidate, candidates, i)
    requires !candidate[i] || !Considered(inL, pruned, d, i) ||
             !Drops(TYPE, lower[i], upper[i], minlower, maxlower, minupper, maxupper)
    ensures TestedBelow(inL, pruned, d, lower, upper, TYPE, minlower, maxlower, minupper, maxupper,
                        candidate0, candidates0, candidate, candidates, i + 1)
  {
  }

  lemma TestedDrop(inL: seq<bool>, pruned: seq<int>, d: seq<int>, lower: seq<int>, upper: seq<int>, TYPE: int,
                   minlower: int, maxlower: int, minupper: int, maxupper: int,
                   candidate0: seq<bool>, candidates0: int, candidate: seq<bool>, candidates: int, i: int)
    requires |inL| == |pruned| == |d| == |lower| == |upper| == |candidate0| && i < |d|
    requires TestedBelow(inL, pruned, d, lower, upper, TYPE, minlower, maxlower, minupper, maxupper,
                         candidate0, candidates0, candidate, candidates, i)
    requires candidate[i] && Considered(inL, pruned, d, i) &&
             Drops(TYPE, lower[i], upper[i], minlower, maxlower, minupper, maxupper)
    ensures TestedBelow(inL, pruned, d, lower, upper, TYPE, minlower, maxlower, minupper, maxupper,
                        candidate0, candidates0, candidate[i := false], candidates - 1, i + 1)
  {
    var c' := candidate[i := false];
    assert CandSet(inL, pruned, c') == CandSet(inL, pruned, candidate) - {i};
  }

  // ---------------------------------------------------------------------
  // The main loop.

  /** A live node that left the candidate set is settled for the quantity
      asked for, in terms of the extremes of the last round: its bounds
      meet, or they keep it from the extreme. */
  ghost predicate Resolved(TYPE: int, lo: int, up: int, minlower: int, maxlower: int, minupper: int, maxupper: int) {
    lo == up ||
    (TYPE == 1 && up <= maxlower) ||
    (TYPE == 2 && lo >= minupper) ||
    (TYPE == 4 && up < maxlower) ||
    (TYPE == 5 && lo > minupper)
  }

  ghost predicate Settled(inL: seq<bool>, pruned: seq<int>, lower: seq<int>, upper: seq<int>, candidate: seq<bool>,
                          TYPE: int, minlower: int, maxlower: int, minupper: int, maxupper: int)
    requires |inL| == |pruned| == |lower| == |upper| == |candidate|
  {
    forall i :: 0 <= i < |candidate| && Live(inL, pruned, i) && !candidate[i] ==>
      Resolved(TYPE, lower[i], upper[i], minlower, maxlower, minupper, maxupper)
  }

  /** The extremes of the bounds over the live nodes, each attained. */
  ghost predicate Attained(inL: seq<bool>, pruned: seq<int>, lower: seq<int>, upper: seq<int>,
                           minlower: int, maxlower: int, minupper: int, maxupper: int,
                           wml: int, wxl: int, wmu: int, wxu: int)
    requires |inL| == |pruned| == |lower| == |upper|
  {
    (forall i :: 0 <= i < |lower| && Live(inL, pruned, i) ==>
      minlower <= lower[i] <= maxlower && minupper <= upper[i] <= maxupper) &&
    0 <= wml < |lower| && Live(inL, pruned, wml) && lower[wml] == minlower &&
    0 <= wxl < |lower| && Live(inL, pruned, wxl) && lower[wxl] == maxlower &&
    0 <= wmu < |lower| && Live(inL, pruned, wmu) && upper[wmu] == minupper &&
    0 <= wxu < |lower| && Live(inL, pruned, wxu) && upper[wxu] == maxupper
  }

  /** No live node has left the candidate set yet. */
  ghost predicate Untouched(inL: seq<bool>, pruned: seq<int>, candidate: seq<bool>)
    requires |inL| == |pruned| == |candidate|
  {
    forall i :: 0 <= i < |candidate| && Live(inL, pruned, i) ==> candidate[i]
  }

  lemma AttainedLive(inL: seq<bool>, pruned: seq<int>, d: seq<int>, lower: seq<int>, upper: seq<int>,
                     minlower: int, maxlower: int, minupper: int, maxupper: int,
                     wml: int, wxl: int, wmu: int, wxu: int)
    requires |inL| == |pruned| == |d| == |lower| == |upper|
    requires Extremes(inL, pruned, d, lower, upper, minlower, maxlower, minupper, maxupper, wml, wxl, wmu, wxu)
    requires forall i :: 0 <= i < |d| && Live(inL, pruned, i) ==> Considered(inL, pruned, d, i)
    ensures Attained(inL, pruned, lower, upper, minlower, maxlower, minupper, maxupper, wml, wxl, wmu, wxu)
  {
  }

  /** Settled nodes stay settled as the bounds tighten and the extremes
      move, and the nodes dropped this round are settled by the drop test. */
  lemma SettledStep(G: Adjacency, inL: seq<bool>, pruned: seq<int>, fix: bool, L: int, TYPE: int,
                    d: seq<int>, lower0: seq<int>, upper0: seq<int>, candidate0: seq<bool>,
                    ml0: int, xl0: int, mu0: int, xu0: int, wml0: int, wxl0: int, wmu0: int, wxu0: int,
                    lower: seq<int>, upper: seq<int>, candidate: seq<bool>,
                    ml: int, xl: int, mu: int, xu: int, wml: int, wxl: int, wmu: int, wxu: int)
    requires |G| == |inL| == |pruned| == |d| == |candidate0| == |candidate|
    requires Sound(G, inL, pruned, fix, lower0, upper0, L) && Sound(G, inL, pruned, fix, lower, upper, L)
    requires forall i :: 0 <= i < |G| && Live(inL, pruned, i) ==> lower0[i] <= lower[i] && upper[i] <= upper0[i]
    requires Settled(inL, pruned, lower0, upper0, candidate0, TYPE, ml0, xl0, mu0, xu0)
    requires Untouched(inL, pruned, candidate0) ||
             Attained(inL, pruned, lower0, upper0, ml0, xl0, mu0, xu0, wml0, wxl0, wmu0, wxu0)
    requires Attained(inL, pruned, lower, upper, ml, xl, mu, xu, wml, wxl, wmu, wxu)
    requires forall k :: 0 <= k < |d| ==>
      candidate[k] == (candidate0[k] && !(Considered(inL, pruned, d, k) && Drops(TYPE, lower[k], upper[k], ml, xl, mu, xu)))
    ensures Settled(inL, pruned, lower, upper, candidate, TYPE, ml, xl, mu, xu)
  {
    forall i | 0 <= i < |G| && Live(inL, pruned, i) && !candidate[i]
      ensures Resolved(TYPE, lower[i], upper[i], ml, xl, mu, xu)
    {
      if !candidate0[i] {
        assert Resolved(TYPE, lower0[i], upper0[i], ml0, xl0, mu0, xu0);
        assert Attained(inL, pruned, lower0, upper0, ml0, xl0, mu0, xu0, wml0, wxl0, wmu0, wxu0);
        assert lower0[wxl0] <= lower[wxl0] <= xl;
        assert mu <= upper[wmu0] <= upper0[wmu0];
      }
    }
  }

  /** The counter follows the candidate set, which loses the probe. */
  lemma CandShrink(inL: seq<bool>, pruned: seq<int>, candidate0: seq<bool>, candidate: seq<bool>, c: int)
    requires |inL| == |pruned| == |candidate0| == |candidate|
    requires forall i :: 0 <= i < |candidate| && candidate[i] ==> candidate0[i]
    requires 0 <= c < |candidate| && Live(inL, pruned, c) && candidate0[c] && !candidate[c]
    ensures |CandSet(inL, pruned, candidate)| < |CandSet(inL, pruned, candidate0)|
  {
    var A, B := CandSet(inL, pruned, candidate), CandSet(inL, pruned, candidate0);
    assert A <= B - {c};
    SubsetCard(A, B - {c});
  }

  /** One round of the main loop (lines 186-298), from the probe on: the
      search from the probe, the update of the bounds and of the candidate
      set, and the choice of the next probes. */
  method Round(G: Adjacency, inL: seq<bool>, pruned: seq<int>, fix: bool, L: int, TYPE: int, c: int,
               lower0: seq<int>, upper0: seq<int>, candidate0: seq<bool>, candidates0: int,
               ghost ml0: int, ghost xl0: int, ghost mu0: int, ghost xu0: int,
               ghost wml0: int, ghost wxl0: int, ghost wmu0: int, ghost wxu0: int)
      returns (d: seq<int>, lower: seq<int>, upper: seq<int>, candidate: seq<bool>, candidates: int,
               minlower: int, maxlower: int, minupper: int, maxupper: int, minlowernode: int, maxuppernode: int,
               ghost wml: int, ghost wxl: int, ghost wmu: int, ghost wxu: int)
    requires Setting(G, inL, pruned) && L == |Members(inL)| && |candidate0| == |G|
    requires 0 <= c < |G| && Live(inL, pruned, c) && candidate0[c]
    requires Sound(G, inL, pruned, fix, lower0, upper0, L)
    requires candidates0 == |CandSet(inL, pruned, candidate0)|
    requires Settled(inL, pruned, lower0, upper0, candidate0, TYPE, ml0, xl0, mu0, xu0)
    requires Untouched(inL, pruned, candidate0) ||
             Attained(inL, pruned, lower0, upper0, ml0, xl0, mu0, xu0, wml0, wxl0, wmu0, wxu0)
    ensures d == DistVec(G, Skipped(pruned), c) && |candidate| == |G|
    ensures Sound(G, inL, pruned, fix, lower, upper, L)
    ensures forall i :: 0 <= i < |G| && Live(inL, pruned, i) ==> lower0[i] <= lower[i] && upper[i] <= upper0[i]
    ensures lower[c] == upper[c] == Target(G, pruned, fix, c)
    ensures forall i :: 0 <= i < |G| && candidate[i] ==> candidate0[i]
    ensures candidates == |CandSet(inL, pruned, candidate)| < candidates0
    ensures Settled(inL, pruned, lower, upper, candidate, TYPE, minlower, maxlower, minupper, maxupper)
    ensures Attained(inL, pruned, lower, upper, minlower, maxlower, minupper, maxupper, wml, wxl, wmu, wxu)
    ensures Pick(G, inL, pruned, d, candidate, lower, true, |G|, minlowernode)
    ensures Pick(G, inL, pruned, d, candidate, upper, false, |G|, maxuppernode)
  {
    var e;
    d, e := Eccentricity(G, pruned, c);
    e := Reported(e, pruned, c, fix);
    if fix {
      ReportedExact(G, inL, pruned, c);
    }
    RoundInputsHold(G, inL, pruned, fix, c, d, e, lower0, upper0, L);
    lower, upper, minlower, maxlower, minupper, maxupper, wml, wxl, wmu, wxu :=
      UpdateBounds(inL, pruned, d, e, lower0, upper0, L, c);
    RoundSound(G, inL, pruned, fix, c, d, e, lower0, upper0, lower, upper, L);
    candidate, candidates, minlowernode, maxuppernode :=
      UpdateCandidates(G, inL, pruned, d, lower, upper, TYPE, minlower, maxlower, minupper, maxupper,
                       candidate0, candidates0);
    AttainedLive(inL, pruned, d, lower, upper, minlower, maxlower, minupper, maxupper, wml, wxl, wmu, wxu);
    SettledStep(G, inL, pruned, fix, L, TYPE, d, lower0, upper0, candidate0,
                ml0, xl0, mu0, xu0, wml0, wxl0, wmu0, wxu0,
                lower, upper, candidate, minlower, maxlower, minupper, maxupper, wml, wxl, wmu, wxu);
    CandShrink(inL, pruned, candidate0, candidate, c);
  }

  /** Without pruning the table is all -1 and nothing is skipped. */
  lemma NoPruning(G: Adjacency, inL: seq<bool>)
    requires WellFormed(G) && |inL| == |G|
    ensures PruneShape(G, inL, seq(|G|, _ => -1))
    ensures Skipped(seq(|G|, _ => -1)) == {}
  {
  }

  /** Every pruned node and every representative lies in the component. */
  lemma PrunedIn(G: Adjacency, inL: seq<bool>, pruned: seq<int>, x: int)
    requires Setting(G, inL, pruned) && 0 <= x < |G| && pruned[x] != -1
    ensures inL[x]
  {
    var h := G[x][0];
    assert h in G[x];
    assert x in G[h];
    NeighbourIn(G, inL, h, x);
  }

  /** Some node of a component is live: a member that is not pruned, or
      else the representative it was pruned onto. */
  lemma SomeLive(G: Adjacency, inL: seq<bool>, pruned: seq<int>, a: int) returns (c: int)
    requires Setting(G, inL, pruned) && 0 <= a < |G| && inL[a]
    ensures 0 <= c < |G| && Live(inL, pruned, c)
  {
    if pruned[a] < 0 {
      c := a;
    } else {
      c := pruned[a];
      PrunedIn(G, inL, pruned, c);
    }
  }

  /** The initial bounds 0 and L are sound. */
  lemma StartSound(G: Adjacency, inL: seq<bool>, pruned: seq<int>, fix: bool, L: int)
    requires Setting(G, inL, pruned) && L == |Members(inL)|
    ensures Sound(G, inL, pruned, fix, seq(|G|, _ => 0), seq(|G|, _ => L), L)
  {
    forall i | 0 <= i < |G| && Live(inL, pruned, i)
      ensures 0 <= Target(G, pruned, fix, i) <= L
    {
      EccBelowComponent(G, inL, Skipped(pruned), i);
      EccBelowComponent(G, inL, {}, i);
    }
  }

  /** The initial counter, L less the pruned nodes, is the number of live
      nodes, and there is at least one. */
  lemma StartCount(G: Adjacency, inL: seq<bool>, pruned: seq<int>, L: int)
    requires Setting(G, inL, pruned) && L == |Members(inL)| && L >= 2
    ensures L - |Skipped(pruned)| == |CandSet(inL, pruned, seq(|G|, _ => true))| > 0
  {
    var M, S := Members(inL), Skipped(pruned);
    assert S <= M by {
      forall x | x in S
        ensures x in M
      {
        PrunedIn(G, inL, pruned, x);
      }
    }
    assert CandSet(inL, pruned, seq(|G|, _ => true)) == M - S;
    assert M == S + (M - S);
    assert S * (M - S) == {};
    var a :| a in M;
    var c := SomeLive(G, inL, pruned, a);
    assert c in M - S;
  }

  /** The first probe (lines 196-206, corrected): the considered node of
      highest degree, the first of those. The source starts its running
      choice at node 0 whether or not node 0 is considered (see
      FirstProbeAsWritten); starting at the first considered node is what
      the selection evidently means. */
  method FirstProbe(G: Adjacency, inL: seq<bool>, pruned: seq<int>, d: seq<int>) returns (current: int)
    requires |G| == |inL| == |pruned| == |d|
    requires exists k :: 0 <= k < |d| && Considered(inL, pruned, d, k)
    ensures 0 <= current < |d| && Considered(inL, pruned, d, current)
    ensures forall k :: 0 <= k < |d| && Considered(inL, pruned, d, k) ==>
      |G[k]| <= |G[current]| && (|G[k]| == |G[current]| ==> current <= k)
  {
    current := -1;
    for i := 0 to |d|
      invariant current == -1 ==> forall k :: 0 <= k < i ==> !Considered(inL, pruned, d, k)
      invariant current != -1 ==> 0 <= current < i && Considered(inL, pruned, d, current)
      invariant current != -1 ==> forall k :: 0 <= k < i && Considered(inL, pruned, d, k) ==>
        |G[k]| <= |G[current]| && (|G[k]| == |G[current]| ==> current <= k)
    {
      if d[i] != -1 && inL[i] && pruned[i] < 0 {
        if current == -1 || |G[i]| > |G[current]| {
          current := i;
        }
      }
    }
  }

  /** What the first-probe loop as written leaves: node 0, or a considered
      node of higher degree than node 0 with no considered node from 1 on
      of higher degree. */
  ghost predicate FirstChoice(G: Adjacency, inL: seq<bool>, pruned: seq<int>, d: seq<int>, current: int)
    requires |G| == |inL| == |pruned| == |d|
  {
    0 <= current < |d| &&
    (current == 0 || (Considered(inL, pruned, d, current) && |G[current]| > |G[0]|)) &&
    forall k :: 1 <= k < |d| && Considered(inL, pruned, d, k) ==> |G[k]| <= |G[current]|
  }

  /** The first probe as lines 196-206 write it: the running choice starts
      at node 0 without asking whether node 0 is in the LWCC or pruned, and
      only the nodes from 1 on are tested. */
  method FirstProbeAsWritten(G: Adjacency, inL: seq<bool>, pruned: seq<int>, d: seq<int>) returns (current: int)
    requires |G| == |inL| == |pruned| == |d| && |d| >= 1
    ensures FirstChoice(G, inL, pruned, d, current)
  {
    current := 0;
    for i := 1 to |d|
      invariant 0 <= current < i
      invariant current == 0 || (Considered(inL, pruned, d, current) && |G[current]| > |G[0]|)
      invariant forall k :: 1 <= k < i && Considered(inL, pruned, d, k) ==> |G[k]| <= |G[current]|
    {
      if d[i] == -1 || !inL[i] || pruned[i] >= 0 {
        continue;
      }
      if |G[i]| > |G[current]| {
        current := i;
      }
    }
  }

  /** A graph whose node 0 lies outside the largest component and has the
      highest degree: a star 0-1, 0-2 and the path 3-4-5-6. */
  function Detached(): Adjacency {
    [[1, 2], [0], [0], [4], [3, 5], [4, 6], [5]]
  }

  function DetachedLwcc(): seq<bool> {
    [false, false, false, true, true, true, true]
  }

  /** A set of nodes that no edge leaves. */
  ghost predicate Closed(G: Adjacency, S: set<int>) {
    forall p, w :: p in S && 0 <= p < |G| && w in G[p] ==> w in S
  }

  /** A search from inside a closed set stays inside it. */
  lemma {:induction false} StaysIn(G: Adjacency, S: set<int>, s: int, k: nat, v: int)
    requires Closed(G, S) && s in S && In(G, {}, s, k, v)
    ensures v in S
    decreases k
  {
    if k > 0 {
      if In(G, {}, s, k - 1, v) {
        StaysIn(G, S, s, k - 1, v);
      } else {
        var p := InPred(G, {}, s, k - 1, v);
        StaysIn(G, S, s, k - 1, p);
      }
    }
  }

  /** From node 0 of that graph no component node is reached. */
  lemma DetachedUnreached(i: int)
    requires 3 <= i < 7
    ensures Dist(Detached(), {}, 0, i) == -1
  {
    var G := Detached();
    var S := {0, 1, 2};
    assert G[0] == [1, 2] && G[1] == [0] && G[2] == [0];
    assert Closed(G, S);
    assert WellFormed(G);
    DistUnreached(G, {}, 0, i);
    if Reaches(G, {}, 0, i) {
      var k: nat :| In(G, {}, 0, k, i);
      StaysIn(G, S, 0, k, i);
    }
  }

  /** On that graph the first probe as written is node 0: no node of the
      component has a higher degree. */
  lemma DetachedFirst(current: int)
    requires FirstChoice(Detached(), DetachedLwcc(), seq(7, _ => -1), seq(7, _ => 0), current)
    ensures current == 0
  {
    var G, inL, pruned, d0 := Detached(), DetachedLwcc(), seq(7, _ => -1), seq(7, _ => 0);
    assert forall k :: 0 <= k < 7 ==> |G[k]| <= 2;
    assert |G[0]| == 2;
  }

  /** On that graph the first probe as written is node 0, outside the
      component; its search reaches no component node, so no node is
      considered and both next probes are -1: the second round calls
      `eccentricity(-1)`, which writes `d[-1]`. */
  lemma FirstProbeOutside(current: int, candidate: seq<bool>, key: seq<int>, least: bool, node: int)
    requires FirstChoice(Detached(), DetachedLwcc(), seq(7, _ => -1), seq(7, _ => 0), current)
    requires |candidate| == |key| == 7
    requires Pick(Detached(), DetachedLwcc(), seq(7, _ => -1), DistVec(Detached(), {}, 0), candidate, key, least, 7, node)
    ensures current == 0 && !Live(DetachedLwcc(), seq(7, _ => -1), 0)
    ensures node == -1
  {
    DetachedFirst(current);
    var inL, pruned, d := DetachedLwcc(), seq(7, _ => -1), DistVec(Detached(), {}, 0);
    forall i | 0 <= i < 7
      ensures !Considered(inL, pruned, d, i)
    {
      if 3 <= i {
        DetachedUnreached(i);
      }
    }
  }

  /** A probe chosen at the end of a round is a live candidate as long as
      candidates remain: every live node was considered. */
  lemma NextProbe(G: Adjacency, inL: seq<bool>, pruned: seq<int>, c: int, d: seq<int>, candidate: seq<bool>,
                  key: seq<int>, least: bool, node: int)
    requires Setting(G, inL, pruned) && 0 <= c < |G| && Live(inL, pruned, c)
    requires d == DistVec(G, Skipped(pruned), c) && |candidate| == |key| == |G|
    requires |CandSet(inL, pruned, candidate)| > 0
    requires Pick(G, inL, pruned, d, candidate, key, least, |G|, node)
    ensures 0 <= node < |G| && Live(inL, pruned, node) && candidate[node]
  {
    var k :| k in CandSet(inL, pruned, candidate);
    LiveReached(G, inL, pruned, c, k);
    assert Eligible(inL, pruned, d, candidate, k);
  }

  /** The invariant of the main loop. Before the first round `current`
      is -1, every live node is a candidate and `d` is all 0; after a round
      `current` is its probe, `d` the probe's search, and the extremes and
      the next probes are those the round left. */
  ghost predicate Looping(G: Adjacency, inL: seq<bool>, pruned: seq<int>, fix: bool, L: int, TYPE: int,
                          lower: seq<int>, upper: seq<int>, candidate: seq<bool>, candidates: int, d: seq<int>, current: int,
                          minlower: int, maxlower: int, minupper: int, maxupper: int, minlowernode: int, maxuppernode: int,
                          wml: int, wxl: int, wmu: int, wxu: int)
  {
    Setting(G, inL, pruned) && L == |Members(inL)| && |candidate| == |d| == |G| &&
    Sound(G, inL, pruned, fix, lower, upper, L) &&
    candidates == |CandSet(inL, pruned, candidate)| &&
    Settled(inL, pruned, lower, upper, candidate, TYPE, minlower, maxlower, minupper, maxupper) &&
    (current == -1 ==>
      candidates > 0 && Untouched(inL, pruned, candidate) && forall i :: 0 <= i < |d| ==> d[i] == 0) &&
    (current != -1 ==>
      0 <= current < |G| && Live(inL, pruned, current) && d == DistVec(G, Skipped(pruned), current) &&
      Attained(inL, pruned, lower, upper, minlower, maxlower, minupper, maxupper, wml, wxl, wmu, wxu) &&
      Pick(G, inL, pruned, d, candidate, lower, true, |G|, minlowernode) &&
      Pick(G, inL, pruned, d, candidate, upper, false, |G|, maxuppernode))
  }

  /** One round of the main loop with its probe selection (lines 195-210). */
  method BoundStep(G: Adjacency, inL: seq<bool>, pruned: seq<int>, fix: bool, L: int, TYPE: int, high0: bool,
                   lower0: seq<int>, upper0: seq<int>, candidate0: seq<bool>, candidates0: int, d0: seq<int>, current0: int,
                   minlower0: int, maxlower0: int, minupper0: int, maxupper0: int, minlowernode0: int, maxuppernode0: int,
                   ghost wml0: int, ghost wxl0: int, ghost wmu0: int, ghost wxu0: int)
      returns (high: bool, lower: seq<int>, upper: seq<int>, candidate: seq<bool>, candidates: int, d: seq<int>, current: int,
               minlower: int, maxlower: int, minupper: int, maxupper: int, minlowernode: int, maxuppernode: int,
               ghost wml: int, ghost wxl: int, ghost wmu: int, ghost wxu: int)
    requires Looping(G, inL, pruned, fix, L, TYPE, lower0, upper0, candidate0, candidates0, d0, current0,
                     minlower0, maxlower0, minupper0, maxupper0, minlowernode0, maxuppernode0, wml0, wxl0, wmu0, wxu0)
    requires candidates0 > 0
    ensures Looping(G, inL, pruned, fix, L, TYPE, lower, upper, candidate, candidates, d, current,
                    minlower, maxlower, minupper, maxupper, minlowernode, maxuppernode, wml, wxl, wmu, wxu)
    ensures current != -1 && candidates < candidates0 && high == !high0
  {
    high := !high0;
    if current0 == -1 {
      ghost var k :| k in CandSet(inL, pruned, candidate0);
      assert Considered(inL, pruned, d0, k);
      current := FirstProbe(G, inL, pruned, d0);
    } else if high {
      NextProbe(G, inL, pruned, current0, d0, candidate0, upper0, false, maxuppernode0);
      current := maxuppernode0;
    } else {
      NextProbe(G, inL, pruned, current0, d0, candidate0, lower0, true, minlowernode0);
      current := minlowernode0;
    }
    d, lower, upper, candidate, candidates, minlower, maxlower, minupper, maxupper, minlowernode, maxuppernode,
      wml, wxl, wmu, wxu :=
      Round(G, inL, pruned, fix, L, TYPE, current, lower0, upper0, candidate0, candidates0,
            minlower0, maxlower0, minupper0, maxupper0, wml0, wxl0, wmu0, wxu0);
  }

  /** The main loop of `extremaBounding` (lines 163-298): starting from
      bounds 0 and L, all nodes candidates and the counter at L less the
      pruned nodes, rounds run while candidates remain. The first probe is
      the live node of highest degree; later rounds alternate between the
      candidate of highest upper bound and that of least lower bound,
      starting with the candidate of highest upper bound. On exit every live node is settled: its
      bounds meet, or they keep it from the extreme asked for. */
  method Bound(G: Adjacency, inL: seq<bool>, L: int, TYPE: int, PRUNE: bool, fix: bool)
      returns (lower: seq<int>, upper: seq<int>, pruned: seq<int>,
               minlower: int, maxlower: int, minupper: int, maxupper: int,
               ghost wml: int, ghost wxl: int, ghost wmu: int, ghost wxu: int)
    requires Symmetric(G) && AllIncreasing(G) && Component(G, inL) && L == |Members(inL)| && L >= 2
    ensures Setting(G, inL, pruned)
    ensures PRUNE ==> CompleteBelow(G, inL, pruned, |G|)
    ensures !PRUNE ==> pruned == seq(|G|, _ => -1)
    ensures Sound(G, inL, pruned, fix, lower, upper, L)
    ensures forall i :: 0 <= i < |G| && Live(inL, pruned, i) ==>
      Resolved(TYPE, lower[i], upper[i], minlower, maxlower, minupper, maxupper)
    ensures Attained(inL, pruned, lower, upper, minlower, maxlower, minupper, maxupper, wml, wxl, wmu, wxu)
  {
    var n := |G|;
    lower := seq(n, _ => 0);
    upper := seq(n, _ => L);
    var candidate := seq(n, _ => true);
    var d := seq(n, _ => 0);
    var high := true;
    pruned := seq(n, _ => -1);
    var candidates := L;
    if PRUNE {
      var count;
      pruned, count := Pruning(G, inL);
      candidates := candidates - count;
    } else {
      NoPruning(G, inL);
    }
    StartSound(G, inL, pruned, fix, L);
    StartCount(G, inL, pruned, L);
    var current := -1;
    minlower, maxlower, minupper, maxupper := -4, -3, -2, -1;
    var minlowernode, maxuppernode := -1, -1;
    wml, wxl, wmu, wxu := 0, 0, 0, 0;
    while candidates > 0
      invariant Looping(G, inL, pruned, fix, L, TYPE, lower, upper, candidate, candidates, d, current,
                        minlower, maxlower, minupper, maxupper, minlowernode, maxuppernode, wml, wxl, wmu, wxu)
      invariant PRUNE ==> CompleteBelow(G, inL, pruned, |G|)
      invariant !PRUNE ==> pruned == seq(|G|, _ => -1)
      decreases candidates
    {
      high, lower, upper, candidate, candidates, d, current,
        minlower, maxlower, minupper, maxupper, minlowernode, maxuppernode, wml, wxl, wmu, wxu :=
        BoundStep(G, inL, pruned, fix, L, TYPE, high, lower, upper, candidate, candidates, d, current,
                  minlower, maxlower, minupper, maxupper, minlowernode, maxuppernode, wml, wxl, wmu, wxu);
    }
    BoundDone(G, inL, pruned, fix, L, TYPE, lower, upper, candidate, candidates, d, current,
              minlower, maxlower, minupper, maxupper, minlowernode, maxuppernode, wml, wxl, wmu, wxu);
  }

  lemma BoundDone(G: Adjacency, inL: seq<bool>, pruned: seq<int>, fix: bool, L: int, TYPE: int,
                  lower: seq<int>, upper: seq<int>, candidate: seq<bool>, candidates: int, d: seq<int>, current: int,
                  minlower: int, maxlower: int, minupper: int, maxupper: int, minlowernode: int, maxuppernode: int,
                  wml: int, wxl: int, wmu: int, wxu: int)
    requires Looping(G, inL, pruned, fix, L, TYPE, lower, upper, candidate, candidates, d, current,
                     minlower, maxlower, minupper, maxupper, minlowernode, maxuppernode, wml, wxl, wmu, wxu)
    requires candidates <= 0
    ensures Setting(G, inL, pruned) && Sound(G, inL, pruned, fix, lower, upper, L)
    ensures forall i :: 0 <= i < |G| && Live(inL, pruned, i) ==>
      Resolved(TYPE, lower[i], upper[i], minlower, maxlower, minupper, maxupper)
    ensures Attained(inL, pruned, lower, upper, minlower, maxlower, minupper, maxupper, wml, wxl, wmu, wxu)
  {
    forall i | 0 <= i < |G| && Live(inL, pruned, i)
      ensures Resolved(TYPE, lower[i], upper[i], minlower, maxlower, minupper, maxupper)
    {
      assert i !in CandSet(inL, pruned, candidate);
    }
  }
}
